# PyMongo's data and protocol layer, verified in Dafny

This project models the parts of PyMongo where bytes, protocols and arithmetic have to be exactly
right, and proves what they promise for every input, every run or every reachable state.

| Part | Modules | Main theorems |
|---|---|---|
| BSON codec | `Bytes`, `Bson`, `Utf8`, `Grammar`, `Dictionaries`, `Decoder`, `Parsing`, `Encoder`, `Refusals`, `RoundTrip`, `ReadBack`, `References`, `Stability` | `Parsing.DecoderMeetsGrammar`, `ReadBack.DocumentRoundTrip`, `Stability.DecodingIsStable`, `References.SubdocumentIsRead`, `Refusals.EncodesIff` |
| Streams of documents | `Streams`, `DocumentArrays` | `Streams.DecodeAllReturnsTheList`, `DocumentArrays.EndsIff`, `DocumentArrays.ArrayIsConcatenated` |
| Bulk-write batching | `ByteStream`, `OpMsg`, `WriteCommand`, `ClientBulk`, `Requests` | `OpMsg.BatchIsMaximal`, `OpMsg.SendAll`, `WriteCommand.SplicedCommandDecodes`, `ClientBulk.BatchKeepsItsPromises`, `Requests.BatchSays`, `Requests.ClientBatchSays` |
| C twins | `CBuffer`, `CDigits`, `CValues`, `CWriter`, `CBatch` | `CWriter.WriteDict`, `CValues.SameBytesIff`, `CBatch.RollBackAgreesIff` |
| Results of bulk writes | `BulkMerge`, `ClientMerge` | `BulkMerge.MergedMeansReported`, `BulkMerge.ExecuteCommand`, `ClientMerge.MergedIsTold`, `ClientMerge.ErrorsTellTheirOperation` |
| Async lock and condition | `AsyncLock`, `AsyncCondition` | `AsyncLock.EveryRunIsSafe`, `AsyncLock.FirstUncancelledTakesIt`, `AsyncCondition.ExitsAreSafe`, `AsyncCondition.EveryRunConserves` |
| Wire framing, read matching and replies | `Framing`, `ReadMatching`, `Protocol`, `Replies` | `Framing.ChunkingDoesNotMatter`, `ReadMatching.EveryRunMatches`, `ReadMatching.CancelledReplyIsDropped`, `Protocol.PyMongoProtocol.ReceiveStream`, `Replies.ReplyArrives` |
| Calendar and datetimes | `Calendar`, `Datetimes` | `Calendar.SecondsRoundTrip`, `Calendar.DateRoundTrip`, `Datetimes.MillisRoundTrip` |
| Decimal128 | `Bits`, `Decimal` | `Decimal.UnpackPack`, `Decimal.RepacksIff`, `Decimal.DecimalRoundTrip` |
| Canonical Extended JSON | `ExtendedJson`, `JsonForms` | `ExtendedJson.RestoresIff`, `ExtendedJson.JsonRoundTrip`, `ExtendedJson.JsonKeepsTheBytes` |

How the parts hang together:

* One datatype, `Bson.Value`, stands for every value the codec handles, and one functional encoder,
  `Encoder.EncodeValue`, for its bytes. The batching, stream, buffer and JSON results all speak about
  that encoder.
* The decoder is related to the grammar of bsonspec.org version 1.1 through parse trees
  (`Grammar.Node`). Accepted bytes are the yield of a tree, yields of trees are decoded to the tree's
  meaning, and the encoder writes the yield of a value's own tree. The round trip follows from these.
* Code that updates things step by step is modelled by methods and classes: the decoder's loops, the
  `BytesIO` back-patching, the C buffer, the lock and condition, the protocol object, the calendar
  loops, the decimal packing loops and the result accumulators. Each is proved against a
  specification function, and the theorems are about that function.
* Concurrency is a state machine whose steps are the code between two awaits. Runs are sequences of
  enabled steps, so calls, cancellations, data and closes interleave freely.
* Definitions that both a writer and its reader use are pinned from outside as well: `Utf8`,
  `Dictionaries`, `References`, `Refusals`, `Requests` and `JsonForms` say what they mean by position,
  by number, or by the text that a specification prints.
* No proof rests on automatic induction: every lemma carries `{:induction false}`.

Codec options are the defaults, except that datetimes are decoded as `DatetimeMS`: no type registry,
dictionaries as document class, UUIDs left as `Binary`. All decoding errors are one error, as
`_bson_to_dict` turns them all into `InvalidBSON`. Integers are unbounded in Dafny, so 32-bit and
64-bit limits and wrap-around are written out where the program has them. Random request ids, sizes
of network reads, server replies and time zones are parameters.

Where the code differs from what one might expect, the model follows the code and a lemma says
exactly when the expectation holds:

* A mapping that looks like a DBRef comes back as a DBRef, and an extra DBRef field named `$ref`,
  `$id` or `$db` is lost. `ReadBack.DocumentRoundTrip` is an if-and-only-if over these two conditions;
  `ReadBack.LookalikeHasSameBytes` and `ReadBack.ClashingExtraIsLost` show both failures.
* `_array_of_documents_to_buffer` need not end on bytes that are no array of documents.
  `DocumentArrays.EndsIff` says when it does, `DocumentArrays.EndlessInput` gives an input on which
  it does not.
* The C encoder differs from the Python one on a DBRef with an extra field that has the key of one
  of its parts, on a Binary of subtype 255, where a signed char reads as an error, and on regular
  expression flags beyond a 64-bit long. `CValues.SameBytesIff` shows that it differs nowhere else,
  and three lemmas give an input of each kind; `CBatch.RollBackAgreesIff` carries the condition over
  to the splitters.
* Extended JSON mistakes some documents for type wrappers. `ExtendedJson.RestoresIff` says which
  values come back.
* `PyMongoProtocol` and `receive_message` disagree on some OP_COMPRESSED lengths.
  `Framing.PullMeetsParse` lists exactly which.
* The message-size promise of a client bulk write depends on how much the command exceeds the fields
  counted for it. `ClientBulk.BatchKeepsItsPromises` gives the exact condition, which always holds
  for an excess of up to 958 bytes.
* A datetime conversion can fail in a zone whose offset near the ends of the range is not the one
  that the limits assume. `Datetimes.AutoFailsIff` says when.
* `datetime_from_millis` subtracts before it divides and can wrap for counts within a second of the
  smallest 64-bit integer. `Datetimes.DatetimeFromMillis` models the wrap and shows that the year is
  out of range all the same.

## Model

| member | source | states |
|---|---|---|
| Bytes.Int32RoundTrip | bson/__init__.py:257-261 | little-endian 32-bit packing is inverted by unpacking, for every value in range |
| Bytes.UnpackInt32RoundTrip | bson/__init__.py:257-261 | every four bytes unpack to an in-range integer that packs to the same bytes |
| Bytes.Int64RoundTrip | bson/__init__.py:843-848 | the same for 64-bit packing |
| Bytes.UnpackInt64RoundTrip | bson/__init__.py:483-487 | the same for 64-bit unpacking |
| Bytes.IndexOfNul | bson/__init__.py:264-267 | finds the first NUL at or after a position, or tells that there is none |
| Bson.FlagsRoundTrip | bson/__init__.py:790-813 | the letters written for a flag mask read back as the mask without the flags that have no letter |
| Bson.FlagsByLetter | bson/regex.py:27-40 | each letter stands for the flag value that Python's `re` gives it, and all six are written `ilmsux` |
| Bson.LettersAscend | bson/__init__.py:790-813 | the letters are written in alphabetical order |
| Utf8.ValidIff | bson/__init__.py:658-694 | text is accepted if and only if it is the RFC 3629 encoding of a sequence of Unicode scalar values |
| Dictionaries.PutTells | bson/__init__.py:593-613 | assigning to a key replaces the value where the key stands, or appends the key |
| Dictionaries.RepeatedNames | bson/__init__.py:593-613 | in a document that repeats names each key stands where it was first used and has the value that came last |
| Dictionaries.IdComesFirst | bson/__init__.py:992-1012 | the encoder writes the `_id` field first, wherever it stands, and the others as they are |
| References.DBRefByName | bson/__init__.py:308-326 | decoded fields become a DBRef if and only if some `$ref` holds a str, there is a `$id`, and no `$db` holds anything but a str or None; its parts are the values under those keys and its extra fields the others |
| References.OrderDoesNotMatter | bson/__init__.py:319-325 | any permutation of the fields gives the same collection, id, database and extra fields |
| References.SubdocumentIsRead | bson/__init__.py:308-326 | a mapping written under any key is read as a DBRef with those parts if and only if it holds those keys |
| References.IdBeforeRef | test/test_dbref.py:149 | `{"$id": 1, "$ref": "coll0"}` is read as `DBRef("coll0", 1)` |
| Parsing.AcceptedIsDerivable | bson/__init__.py:593-629 | acceptance soundness: whatever bytes are accepted, they are the yield of a well-formed parse tree, in which every declared length tiles its children, and the result is the tree's meaning |
| Parsing.DerivableIsDecoded | bson/__init__.py:593-629 | every document of the grammar is decoded to its meaning |
| Parsing.DecoderMeetsGrammar | bson/__init__.py:616-629 | a byte string decodes to given fields if and only if some tree derives it and means those fields |
| Parsing.ValueSound | bson/__init__.py:496-528 | a value read from any position derives exactly the bytes between the old and the new position |
| Parsing.ValueComplete | bson/__init__.py:496-528 | the bytes of a tree are read to the tree's meaning, and the position ends behind them |
| Parsing.ItemsSound | bson/__init__.py:329-368 | the array loop, which never compares with the enclosing end, still reads exactly its own elements |
| Parsing.ItemsComplete | bson/__init__.py:329-368 | the elements of an array are read to their meanings in order |
| Parsing.ElementsSound | bson/__init__.py:593-613 | the dictionary loop reads exactly the elements between its two positions |
| Parsing.ElementsComplete | bson/__init__.py:593-613 | the elements of a document are folded into the dictionary in order, a repeated key replacing |
| Parsing.ContainerSound | bson/__init__.py:291-305 | a length prefix and a final NUL that pass the checks enclose exactly the body |
| Parsing.CodeSound | bson/__init__.py:444-453 | code with scope: both its own length and the scope's tile |
| Decoder.ElementToDict | bson/__init__.py:546-576 | reading an element moves the position strictly forward, the measure on which every loop ends |
| Decoder.ElementsToDict | bson/__init__.py:593-613 | the loop computes what the recursive specification says, and raises when it does |
| Decoder.GetArray | bson/__init__.py:329-368 | the same for the array loop with its shifting end |
| Encoder.EncodeDBRef | bson/__init__.py:716-730 | reserving four bytes and patching the length in afterwards gives the enclosed encoding |
| Encoder.DictToBson | bson/__init__.py:992-1012 | the collecting loop gives the encoding with a top-level `_id` first |
| Encoder.EncodeDocumentIsIdFirst | bson/__init__.py:992-1012 | writing `_id` first and skipping it later is encoding the reordered document |
| Encoder.FlagBytes | bson/__init__.py:790-813 | the shortcuts for one flag and for no flag write the same letters as the general case |
| Refusals.EncodesIff | bson/__init__.py:697-863 | a value of any depth is encoded if and only if its text, keys, integers and lengths are in range, and takes exactly the bytes counted for it |
| Refusals.DocumentEncodesIff | bson/__init__.py:992-1012 | the same for whole documents, with `_id` first or not |
| Refusals.CheckKeysOnlyRefuses | bson/__init__.py:978-990 | `check_keys` refuses exactly the values with a key that starts with `$` or contains a dot, Code scopes excepted, and changes no byte |
| RoundTrip.EncodeIsDerivation | bson/__init__.py:697-863 | whatever the encoder writes for a value is the yield of that value's well-formed tree |
| RoundTrip.FieldsAreDerivation | bson/__init__.py:978-1012 | the same for the elements of a document |
| RoundTrip.ItemsAreDerivation | bson/__init__.py:733-739 | the same for the elements of a list under their decimal names |
| RoundTrip.RefIsDerivation | bson/__init__.py:716-730 | the same for a DBRef |
| ReadBack.ReadsBackIffPlain | bson/__init__.py:308-326 | a value's tree means the value, up to wide ints, subtype 0 and unstored flags, if and only if nothing in it is mistaken for a DBRef (which `References.DBRefByName` tells by the keys) |
| ReadBack.DocumentRoundTrip | bson/__init__.py:593-629 | decoding an encoded document of any depth gives the document with `_id` first, if and only if nothing in it is mistaken for a DBRef |
| ReadBack.IdFirstPermutes | bson/__init__.py:992-1012 | moving `_id` first loses and duplicates no field |
| ReadBack.LookalikeHasSameBytes | bson/__init__.py:716-730 | a plain mapping spelled like a DBRef has the DBRef's own bytes |
| ReadBack.ClashingExtraIsLost | bson/__init__.py:308-326 | a DBRef with an extra field named `$ref`, `$id` or `$db` never reads back |
| Stability.DecodedIsSettled | bson/__init__.py:593-629 | whatever is decoded from any bytes has distinct keys and well-typed values, and nothing in it would be mistaken for a DBRef or come back changed |
| Stability.DecodingIsStable | bson/__init__.py:593-629 | decoding, encoding and decoding any bytes gives the document first decoded, with `_id` first |
| Streams.DecodeAll | bson/__init__.py:1093-1116 | the loop computes its specification and always ends |
| Streams.DecodeIter | bson/__init__.py:1291-1323 | the generator yields what its specification says and always ends |
| Streams.SliceHolds | bson/__init__.py:1306-1320 | a slice holds the elements from one bound up to the other, negative bounds counting from the end |
| Streams.DecodeAllReturnsTheList | bson/__init__.py:1093-1116 | on the concatenated encodings of any list both readers return the list |
| Streams.StreamIsReadFirst | bson/__init__.py:1093-1116 | whatever follows a list of encoded documents, both readers have read the list when they come to it |
| Streams.ShortTails | bson/__init__.py:1093-1116 | one byte after the list is left unread, two or three make both readers raise |
| DocumentArrays.ArrayOfDocumentsToBuffer | bson/__init__.py:1195-1213 | on any bytes: the joined pieces, an error, or no end, as specified |
| DocumentArrays.ArrayIsConcatenated | bson/__init__.py:1195-1213 | on an array of documents the result is exactly the concatenation of its documents |
| DocumentArrays.NegativeOffsets | bson/__init__.py:291-305 | offsets and indices down to minus the length count from the end, others are refused |
| DocumentArrays.EndsIff | bson/__init__.py:1202-1210 | the loop ends if and only if it has ended after twice as many turns as there are bytes, and runs for ever if and only if it comes back to a position |
| DocumentArrays.ForwardEnds | bson/__init__.py:1202-1210 | it ends whenever every declared size met keeps the position moving forward |
| DocumentArrays.NoNegativeSizeEnds | bson/__init__.py:291-305 | it ends whenever no acceptable declared size is negative |
| DocumentArrays.SpecifiedByAnyEnd | bson/__init__.py:1202-1213 | the first end decides what is returned |
| DocumentArrays.EndlessInput | bson/__init__.py:1195-1213 | twelve bytes on which the position goes from 4 to 7 and back for ever |
| DocumentArrays.SmallSizesAreTaken | bson/__init__.py:1207-1210 | declared sizes 0, 2, 3 and 4 are taken as they are and move the position forward |
| DocumentArrays.SizeOneIsRefused | bson/__init__.py:291-305 | a declared size of 1 never passes |
| Streams.EncodedListIsArrayOfDocuments | bson/__init__.py:733-739 | the encoding of a list of documents is such an array |
| ByteStream.OverwriteHole | pymongo/message.py:643-647 | writing over a reserved hole changes the hole and nothing else |
| OpMsg.SelectIsMaximal | pymongo/message.py:619-641 | the greedy loop takes a prefix within both limits that no longer prefix satisfies |
| OpMsg.SelectRefusal | pymongo/message.py:619-641 | a refusal names a document that really is unencodable, or too large for the message or, unacknowledged, for the server |
| OpMsg.BatchRefusal | pymongo/message.py:586-649 | a refused batch has an unknown operation, a command or document that cannot be encoded, a document that is too large, or a section too long for its length field |
| OpMsg.UnacknowledgedFits | pymongo/message.py:627-635 | no document of an unacknowledged batch exceeds the server's limit |
| OpMsg.BatchedOpMsgImpl | pymongo/message.py:586-649 | appends exactly the body of the batch, which `Requests.BatchSays` reads, and returns the documents in it |
| OpMsg.BatchedOpMsg | pymongo/message.py:691-716 | header length and request id are patched into a message that is header and body, which `Requests.MessageSays` and `Requests.BatchSays` read |
| OpMsg.BatchIsMaximal | pymongo/message.py:586-649 | every batch is non-empty, within count and size limits, maximal, and the finished message keeps to the server's limit, compressed or not |
| OpMsg.BatchReadsBack | pymongo/message.py:586-649 | the document section decodes to exactly the documents sent, in order |
| OpMsg.SendAll | pymongo/synchronous/bulk.py:379-430 | calling until everything is sent terminates, and the batches concatenate to the input |
| Requests.IdentifierNames | pymongo/message.py:432-436 | inserts travel under `documents`, updates under `updates`, deletes under `deletes`, and no other operation has a name |
| Requests.BatchSays | pymongo/message.py:586-649 | a reader of the wire format finds in every batch whether a reply is expected, the command, the identifier of the operation, and the documents taken, each in its own encoding |
| Requests.MessageSays | pymongo/message.py:700-713 | the header has the message's length, the request id, no response id and op code 2013 |
| Requests.QueryHeaderSays | pymongo/message.py:1078-1085 | a write command reads as a query without flags on the namespace, skipping nothing, with limit -1 |
| WriteCommand.CommandIsMaximal | pymongo/message.py:1099-1119 | a non-raising call on a non-empty list sends the first document, more only below the split size and within the count, and no longer prefix would be taken |
| WriteCommand.CommandRefusal | pymongo/message.py:1061-1131 | a refused call has an unknown operation, a command or document that cannot be encoded, a document that is too large, or a command too long for its length field |
| WriteCommand.SpliceIsEncoding | pymongo/message.py:1061-1131 | the spliced and patched bytes are the encoding of the command extended by the array |
| WriteCommand.BatchedWriteCommandImpl | pymongo/message.py:1061-1131 | overwriting the final NUL, appending and back-patching two lengths produces those bytes behind the query header |
| WriteCommand.BatchCommand | pymongo/message.py:543-556 | cut at the computed start, the message is the encoding of the command plus the array of the sent prefix |
| WriteCommand.SplicedCommandDecodes | pymongo/message.py:1061-1131 | it decodes to the command's fields and then the array of exactly the documents sent, if and only if nothing in them is mistaken for a DBRef |
| ClientBulk.FirstUsesAreDistinct | pymongo/message.py:902-905 | the namespace list is duplicate-free and has exactly the namespaces used |
| ClientBulk.FirstUsesInOrder | pymongo/message.py:902-905 | a namespace listed earlier is first used earlier |
| ClientBulk.OperationNamesItsNamespace | pymongo/message.py:907-909 | in every batch each operation carries the index of its own namespace |
| ClientBulk.SelectIsMaximal | pymongo/message.py:886-940 | the loop takes a maximal prefix for the room left by the command |
| ClientBulk.SelectRefusal | pymongo/message.py:886-932 | a refusal names an operation that really cannot be encoded or exceeds a limit |
| ClientBulk.PayloadIff | pymongo/message.py:886-899 | an unacknowledged insert or replace passes its check if and only if it carries a document within the limit under `document` or `updateMods` |
| ClientBulk.UnacknowledgedFits | pymongo/message.py:886-923 | in an unacknowledged batch every inserted document, replacement and operation keeps to its limit |
| ClientBulk.SelectBatch | pymongo/message.py:878-940 | the loop with its dictionary and lists produces the indexed operations, the namespaces and their encodings, or the specified failure |
| ClientBulk.ConstructOpMsg | pymongo/message.py:787-832 | both section lengths are patched to match their bytes |
| ClientBulk.BatchedOpMsgImpl | pymongo/message.py:835-947 | appends the body of the batch, or fails as specified |
| ClientBulk.BatchedOpMsg | pymongo/message.py:989-1016 | the finished message is header and body |
| ClientBulk.BatchKeepsItsPromises | pymongo/message.py:835-947 | non-empty, maximal, duplicate-free; the message is within the limit if and only if the batch leaves room for what the command exceeds its counted fields by beyond 958 bytes |
| ClientBulk.BatchReadsBack | pymongo/message.py:787-832 | both sections decode to the operations with their indices and to the namespaces |
| Requests.ClientBatchSays | pymongo/message.py:787-832 | the same reader finds in every client-level batch the command, the operations under `ops` and the namespaces under `nsInfo`, each in its own encoding |
| Requests.OperationsSay | pymongo/message.py:886-909 | operations carry their namespace under `insert`, `update` or `delete`, a replacement under `update`, and a namespace is listed as `ns` |
| Requests.AbridgedSays | pymongo/message.py:865-876 | the fields counted are the three that must be there and, of the other three, those with a true value |
| Requests.FalseValues | pymongo/message.py:867-872 | the values that Python takes for false |
| CBuffer.GrownSize | bson/buffer.c:78-105 | doubling a C int ends although it wraps, at a size that suffices |
| CBuffer.Buffer.Grow | bson/buffer.c:78-105 | growing keeps the contents |
| CBuffer.Buffer.AssureSpace | bson/buffer.c:107-123 | room is made or the 2 GiB failure reported, contents unchanged |
| CBuffer.Buffer.SaveSpace | bson/buffer.c:125-135 | reserves bytes behind the contents |
| CBuffer.Buffer.Write | bson/buffer.c:137-145 | appends exactly the data, or fails without change |
| CBuffer.Buffer.UpdatePosition | bson/buffer.c:155-157 | rewinding cuts the contents |
| CDigits.LongLongToStr | bson/_cbsonmodule.c:115-161 | writes the decimal name of every 64-bit integer and its NUL, or reports that the array is too small |
| CDigits.NameFits | bson/_cbsonmodule.c:115-161 | 21 bytes are enough for every 64-bit integer |
| CDigits.ReverseInPlace | bson/_cbsonmodule.c:115-161 | the swapping loop reverses a range and leaves the rest |
| CValues.SameBytesIff | bson/_cbsonmodule.c:1100-1520 | for a value that Python encodes, C writes the same bytes if and only if no DBRef has an extra field with the key of a part, no Binary has subtype 255 and no flags exceed a C long |
| CValues.SameDocumentIff | bson/_cbsonmodule.c:1856-2000 | the same for whole documents; where nothing differs the two also fail together |
| CValues.LengthsTell | bson/_cbsonmodule.c:1337-1352 | what C writes is never longer than what Python writes, and as long only if nothing differs |
| CValues.ClashIsWrittenOnce | bson/_cbsonmodule.c:1337-1352 | a DBRef with an extra `$id`, which Python writes twice and C once |
| CValues.LastSubtypeIsRefused | bson/_cbsonmodule.c:1146-1150 | a Binary of subtype 255, which Python encodes and C refuses |
| CValues.RefusedExactly | bson/_cbsonmodule.c:1146-1150 | subtype 255 and flags from 2^63 on are the only leaves that C refuses and Python does not |
| CValues.LongFlagsAreRefused | bson/_cbsonmodule.c:1005-1009 | flags of 2^63, which Python encodes and C refuses |
| CWriter.WriteDict | bson/_cbsonmodule.c:1856-2000 | appends exactly the Python bytes of the value as C sees it, and fails exactly when that encoding fails or 2 GiB would be passed |
| CWriter.DictToBson | bson/_cbsonmodule.c:2002-2055 | for a document that Python encodes, the result is Python's if and only if nothing differs |
| CWriter.WritePair | bson/_cbsonmodule.c:1638-1665 | the same for one named element |
| CWriter.WriteElement | bson/_cbsonmodule.c:1100-1520 | the same with the type byte stored after the name |
| CWriter.WriteList | bson/_cbsonmodule.c:1406-1472 | the same for lists under their decimal names |
| CWriter.WriteDBRef | bson/_cbsonmodule.c:1337-1352 | writes `as_doc()`, in which extra fields replace parts, with the type byte stored last |
| CWriter.WriteCodeWithScope | bson/_cbsonmodule.c:1222-1264 | the same for code with a scope and its two lengths |
| CBatch.BatchedOpMsg | pymongo/_cmessagemodule.c:357-532 | the write-then-roll-back splitter does what the look-ahead form does on the documents as C sees them; the only other outcome is the 2 GiB failure |
| CBatch.RollBackAgreesIff | pymongo/_cmessagemodule.c:357-532 | for every batch the look-ahead form makes, the roll-back form makes the same bytes and documents if and only if the command and the sent documents are encoded alike and the loop still ends there |
| CBatch.AlikeInEverything | pymongo/_cmessagemodule.c:357-532 | where the encoders agree on everything, so do the splitters on every outcome, refusals included |
| BulkMerge.RunBuilder.Add | pymongo/bulk_shared.py:46-72 | the parallel lists grow together |
| BulkMerge.GenOrdered | pymongo/synchronous/bulk.py:212-224 | maximal stretches of one kind whose positions concatenate to the input's, and None for a bulk without operations |
| BulkMerge.GenUnordered | pymongo/synchronous/bulk.py:226-237 | one non-empty run per kind, inserts before updates before deletes, each in the order of the input, that together hold every position exactly once |
| BulkMerge.FullResult.MergeCommand | pymongo/bulk_shared.py:74-115 | the accumulating loops compute the specified merge |
| BulkMerge.MergedMeansReported | pymongo/bulk_shared.py:74-115 | over any batches, errors carry the original position and operation the server meant, upserts original positions, and nMatched + nUpserted is the sum of n over update batches |
| BulkMerge.ModifiedAndConcernsAreTold | pymongo/bulk_shared.py:86-115 | nModified is the sum of nModified over the update batches, and every write concern error is kept, in order |
| BulkMerge.ErrorsNameTheirOperation | pymongo/bulk_shared.py:100-110 | each reported error holds the operation that stands at its reported index |
| BulkMerge.NextBatch | pymongo/synchronous/bulk.py:405-409 | the splitter takes a non-empty prefix of what is left, within the count, as the OP_MSG specification says, and refuses exactly where that does or the message would be too long |
| BulkMerge.CodeNames | pymongo/message.py:432-436 | the documents of a run travel under the name of its kind |
| BulkMerge.ExecuteRun | pymongo/synchronous/bulk.py:379-430 | the offset passed on is always the number of operations of the run already sent, and a refusal is the splitter's at that offset |
| BulkMerge.ExecuteCommand | pymongo/synchronous/bulk.py:379-437 | operations are sent in the order of the runs, each once, and all of them unless a document is refused or an ordered bulk stops at an error |
| ClientMerge.FullResult.MergeCommand | pymongo/_client_bulk_shared.py:30-59 | the statements add each counter to its own and the loop computes the specified errors |
| ClientMerge.MergedIsTold | pymongo/_client_bulk_shared.py:30-59 | each of the five counters is the sum of that counter over the replies, and no write error is dropped |
| ClientMerge.OtherErrorsAreTold | pymongo/_client_bulk_shared.py:37-59 | the top-level error is that of the last reply with one, and the write concern errors are those of the replies, in order |
| ClientMerge.ErrorsTellTheirOperation | pymongo/_client_bulk_shared.py:45-55 | every error of every batch stands in the result with the original index and document of the operation meant |
| AsyncLock.StepKeepsInv | pymongo/_asyncio_lock.py:111-177 | every step keeps mutual exclusion, the woken head, no lost wake-up, the order of tickets, and that every ticket queues, got the lock or was cancelled, the last two excluding each other |
| AsyncLock.EveryRunIsSafe | pymongo/_asyncio_lock.py:111-177 | the same after every run, with cancellation at any await; what releasing does is in `AsyncLock.ReleaseFrees` |
| AsyncLock.HeadMakesProgress | pymongo/_asyncio_lock.py:111-177 | with the lock free and somebody waiting, the head can run and takes the lock or passes the turn on |
| AsyncLock.AcquireTakesOrQueues | pymongo/_asyncio_lock.py:111-131 | acquire has the lock at once exactly if nobody holds it and everybody queued was cancelled, and otherwise queues last |
| AsyncLock.ReleaseFrees | pymongo/_asyncio_lock.py:149-177 | the holder's release leaves the lock unlocked and held by nobody, keeps the queue, and wakes its head; with an empty queue the next acquire succeeds at once |
| AsyncLock.FirstUncancelledTakesIt | pymongo/_asyncio_lock.py:131-148 | running the head of a free lock's queue again and again gives the lock to the first ticket that was not cancelled, and leaves the ones behind it queued |
| AsyncLock.CancelledGivesUp | pymongo/_asyncio_lock.py:131-148 | a cancelled acquire changes no other waiter, and leaves without the lock |
| AsyncLock.Lock.Acquire | pymongo/_asyncio_lock.py:111-131 | acquire up to its await is the modelled step |
| AsyncLock.Lock.Continue | pymongo/_asyncio_lock.py:131-148 | acquire after its await, resumed or cancelled, is the modelled step |
| AsyncLock.Lock.ReleaseLock | pymongo/_asyncio_lock.py:149-164 | release is the modelled step: afterwards `locked` is False, the caller holds nothing, the head of the queue is not pending, and no other waiter has changed; it refuses an unlocked lock |
| AsyncLock.Lock.WakeFirst | pymongo/_asyncio_lock.py:166-177 | sets the head's future unless it is done |
| AsyncCondition.NotifyWakes | pymongo/_asyncio_lock.py:278-302 | notify(n) wakes exactly min(n, pending) waiters, and none is left pending before one that was woken |
| AsyncCondition.ExitsAreSafe | pymongo/_asyncio_lock.py:209-262 | every exit from wait leaves the caller as the only holder of the lock; an exit by exception wakes the first pending waiter, so a notification is lost only when nobody is left |
| AsyncCondition.EveryRunConserves | pymongo/_asyncio_lock.py:209-302 | over every run notifications given plus spurious ones equal normal returns, those in flight and those lost; the lock stays safe; every wait ends at most once, with an exception exactly if it was cancelled |
| AsyncCondition.WaitFrees | pymongo/_asyncio_lock.py:223-230 | wait lets go of the lock before it blocks: it is unlocked, held by nobody, and its queue's head is woken |
| AsyncCondition.Condition.Wait | pymongo/_asyncio_lock.py:209-240 | wait up to its first await is the modelled step: afterwards the lock is unlocked, the caller does not hold it, and one more wait is blocked; it refuses an unlocked lock |
| AsyncCondition.Condition.ContinueWait | pymongo/_asyncio_lock.py:228-262 | leaving the condition's queue and starting to re-acquire keeps the invariant |
| AsyncCondition.Condition.ContinueAcquire | pymongo/_asyncio_lock.py:236-262 | one turn of the re-acquire loop keeps the invariant |
| AsyncCondition.Condition.Wake | pymongo/_asyncio_lock.py:294-302 | the loop wakes the first n pending waiters |
| AsyncCondition.Condition.NotifyWaiters | pymongo/_asyncio_lock.py:278-292 | notify is the modelled step, and refuses an unlocked lock |
| Framing.ParseAppends | pymongo/network_layer.py:610-664 | parsing can stop anywhere and go on from what was left |
| Framing.MessagesAreParsed | pymongo/network_layer.py:638-664 | a concatenation of messages within the limit parses into those messages, with nothing left |
| Framing.ChunkingDoesNotMatter | pymongo/network_layer.py:558-636 | however a stream is cut into chunks that fit, the frames, the failure and the rest are those of the whole stream |
| Framing.SameStreamSameFrames | pymongo/network_layer.py:558-636 | two ways of cutting one stream give the same frames |
| Framing.PullMeetsParse | pymongo/network_layer.py:749-781 | both readers accept exactly the frames legal for both and then agree; they differ exactly on the disputed compressed lengths |
| Framing.PullAllMeetsParse | pymongo/network_layer.py:749-781 | on a stream without disputed headers, repeated pulls give the frames of the whole stream |
| Framing.ReceiveData | pymongo/network_layer.py:326-388 | returns exactly the next bytes, however the network splits them, unless the peer closes first |
| Framing.ReceiveMessage | pymongo/network_layer.py:749-781 | returns the pulled frame if the response id matches |
| Replies.UnpackAcceptsIff | pymongo/message.py:1198-1215 | a message is accepted if and only if it is one document section whose length tiles it, with no flag or moreToCome alone |
| Replies.ReplyArrives | pymongo/message.py:1198-1215 | a reply within the limit is one frame for both readers, unpacks to its payload, and decodes to the document sent |
| Replies.CompressedArrives | pymongo/network_layer.py:638-664 | a compressed message is one frame with the op code, compressor and body that its sender wrote, its limit taken without the compression header |
| ReadMatching.StepKeepsInv | pymongo/network_layer.py:524-556 | every step keeps reads and frames in step |
| ReadMatching.EveryRunMatches | pymongo/network_layer.py:524-684 | over every interleaving read number j returns frame number j or raises; it raises if it was cancelled or that frame answers another request |
| ReadMatching.CancelledReplyIsDropped | pymongo/network_layer.py:610-636 | the reply to a read cancelled while pending is handed to nobody: its arrival closes, and every later read of every continuation raises |
| ReadMatching.DeadForEver | pymongo/network_layer.py:666-684 | once closing with no message left, every further read raises |
| ReadMatching.DeliverAnswers | pymongo/network_layer.py:610-636 | with no cancelled read left, the first frames of a stream answer the pending reads in order and the others wait in order |
| ReadMatching.OpenReadSucceeds | pymongo/network_layer.py:524-556 | on an open connection an uncancelled read ends with the next frame: it returns it if the response id is its own or it gave none, and otherwise raises |
| ReadMatching.NoReadHangs | pymongo/network_layer.py:666-684 | whatever ends the connection leaves no read waiting, and a later read that finds no message raises at once |
| Protocol.PyMongoProtocol.GetBuffer | pymongo/network_layer.py:558-577 | the buffer is never empty, and as long as the part of the frame being read |
| Protocol.PyMongoProtocol.BufferUpdated | pymongo/network_layer.py:579-636 | indices and mode fields do what the framing specification says, and the queues what the matching step says |
| Protocol.PyMongoProtocol.ProcessHeader | pymongo/network_layer.py:638-659 | accepts exactly the admitted headers |
| Protocol.PyMongoProtocol.Deliver | pymongo/network_layer.py:610-636 | a finished frame goes to the first pending read, waits for the next one, or closes |
| Protocol.PyMongoProtocol.ResolvePendingMessages | pymongo/network_layer.py:666-674 | every pending future is finished and queued, no other touched |
| Protocol.PyMongoProtocol.Close | pymongo/network_layer.py:676-679 | close is the modelled step |
| Protocol.PyMongoProtocol.ConnectionLost | pymongo/network_layer.py:681-684 | connection_lost is the modelled step |
| Protocol.PyMongoProtocol.Read | pymongo/network_layer.py:524-545 | read up to its await is the modelled step; a frame it returns at once answers the request |
| Protocol.PyMongoProtocol.ContinueRead | pymongo/network_layer.py:539-556 | read after its await is the modelled step; a frame it returns answers the request, and the read was not cancelled |
| Protocol.PyMongoProtocol.ReceiveStream | pymongo/network_layer.py:558-636 | a whole stream cut anywhere, whatever reads are pending: its frames are delivered one after another until one meets a cancelled read, and a refused header closes |
| Calendar.YearStartAdvances | bson/time64.c:69-113 | the closed form of New Year's day agrees with the leap rule year by year and is anchored at 1970 and 2008 |
| Calendar.YearStartRepeats | bson/time64.c:71-74 | the calendar repeats every 400 years |
| Calendar.TruncatesTowardZero | bson/time64.c:568-578 | C division rounds toward zero, and the remainder has the sign of the dividend |
| Calendar.JulianDaysAdvance | bson/time64.c:59-67 | the two month tables describe one calendar |
| Calendar.DateIsUnique | bson/time64.c:214-258 | a second names at most one date, weekday and year-day included |
| Calendar.TimeGm | bson/time64.c:214-258 | the loops compute the seconds of the date, within 64 bits |
| Calendar.SplitTime | bson/time64.c:568-578 | truncating division with wraps is floor division, for negative times too |
| Calendar.Forward | bson/time64.c:583-611 | cycles, years and months forward reach the date of the day |
| Calendar.Backward | bson/time64.c:612-637 | cycles, years and months backward reach the date of the day |
| Calendar.GmTime | bson/time64.c:533-659 | for every 64-bit count whose year fits an int a valid date with right weekday and year-day, otherwise NULL |
| Calendar.SecondsRoundTrip | bson/time64.c:533-659 | seconds come back from their date |
| Calendar.DateRoundTrip | bson/time64.c:214-258 | dates come back from their seconds |
| Datetimes.DatetimeFromMillis | bson/_cbsonmodule.c:344-357 | succeeds exactly on the datetime range and then has the given milliseconds |
| Datetimes.MillisFromDatetime | bson/_cbsonmodule.c:414-428 | computes the milliseconds of a datetime |
| Datetimes.MillisRoundTrip | bson/_cbsonmodule.c:344-428 | milliseconds survive over the whole range, before 1970 too |
| Datetimes.DatetimeRoundTrip | bson/_cbsonmodule.c:344-428 | datetimes survive up to their microseconds below the millisecond |
| Datetimes.AutoFailsIff | bson/datetime_ms.py:117-183 | with DATETIME_AUTO a count fails exactly if it is within the limits and its local time does not exist; all others convert and come back |
| Datetimes.FixedZoneLimits | bson/datetime_ms.py:131-146 | for an offset that never changes, a count is within the limits if and only if its datetime exists in UTC and in the zone |
| Datetimes.AutoIsTotal | bson/datetime_ms.py:117-183 | it never fails where the zone's offset near the ends is on the safe side of the one the limits assume |
| Datetimes.UnsteadyZoneFails | bson/datetime_ms.py:131-146 | an offset an hour behind fails at the lower limit |
| Datetimes.ClampIsNearest | bson/datetime_ms.py:117-183 | with DATETIME_CLAMP the count becomes the nearest one the limits allow, and fails exactly if that one's local time does not exist |
| Datetimes.DatetimeIfRepresentable | bson/datetime_ms.py:149-183 | with DATETIME a count converts exactly if it exists in UTC and in the zone |
| Bits.AndMask | bson/decimal128.py:276-311 | masking with a run of ones selects a field in place |
| Decimal.PlacedExponent | bson/decimal128.py:145-150 | a coefficient below 10^34 never takes the large-coefficient branch |
| Decimal.SpecialsHavePrefix | bson/decimal128.py:276-291 | a word without the prefix 11 is no infinity and no NaN |
| Decimal.DecimalTo128 | bson/decimal128.py:111-156 | the bit loops compute the arithmetic encoding in two 64-bit words |
| Decimal.ToDecimal | bson/decimal128.py:271-311 | the masks, shifts and byte loops compute the meaning of any two words |
| Decimal.UnpackIsByRange | bson/decimal128.py:271-311 | what any two words mean, by comparing numbers: NaN, infinite, zero with an exponent, or a coefficient with an exponent |
| Decimal.UnpackPack | bson/decimal128.py:131-156 | every sign, coefficient below 10^34 and exponent from -6176 to 6111 survives, infinities and NaNs too |
| Decimal.PackIsInjective | bson/decimal128.py:131-156 | different decimals have different encodings |
| Decimal.RepacksIff | bson/decimal128.py:271-311 | among all words, those are reproduced by reading and packing that avoid the prefix 11 and have at most 34 digits, and the six special values |
| Decimal.DecimalRoundTrip | bson/decimal128.py:111-311 | the program's own conversion and its inverse give the value back |
| Decimal.FromBidOfBid | bson/decimal128.py:313-329 | from_bid inverts bid |
| Decimal.BidOfFromBid | bson/decimal128.py:313-329 | bid inverts from_bid on every 16 bytes |
| ExtendedJson.FindParser | bson/json_util.py:507-515 | the loop finds the first key, in the object's own order, that has a parser |
| ExtendedJson.LeafIff | bson/json_util.py:573-814 | a single value comes back, with its type, if and only if it is no NaN or Decimal128 with bits other than its text stands for |
| ExtendedJson.RefIff | bson/json_util.py:697-705 | a DBRef comes back if and only if its extra fields survive as keyword arguments and all its parts come back |
| ExtendedJson.MappingIff | bson/json_util.py:507-515 | a document comes back if and only if its fields do and the hook hands it back |
| ExtendedJson.RestoresIff | bson/json_util.py:487-515 | reading the converted tree gives what reading the BSON bytes would give if and only if every document in the value is handed back by the hook, every DBRef can be rebuilt, and every NaN and Decimal128 has the bits its text stands for |
| ExtendedJson.SameEncoding | bson/__init__.py:697-863 | what is read back has the same BSON bytes, hence the same BSON type |
| ExtendedJson.JsonKeepsTheBytes | bson/json_util.py:487-515 | every such value keeps its BSON encoding through JSON, byte for byte |
| ExtendedJson.JsonRoundTrip | bson/json_util.py:487-515 | the very same value comes back: for exact values if and only if they are plain, for plain values if and only if they have no wide int, no Binary of subtype 0 and no flag without a letter |
| ExtendedJson.WrapperIsMistaken | bson/json_util.py:507-515 | a document with a type wrapper's key is taken for a number |
| ExtendedJson.HalfRefIsHandedBack | bson/json_util.py:697-705 | a document with `$ref` but no `$id` comes back |
| JsonForms.NumbersAreSpelled | bson/json_util.py:842-899 | ints, Int64, dates and doubles are written under the keys and in the texts of the canonical form, NaN and the infinities by name |
| JsonForms.BytesAreSpelled | bson/json_util.py:818-822 | bytes, Binary and ObjectId, the subtype in two hexadecimal digits |
| JsonForms.HexByByte | bson/json_util.py:937-938 | an ObjectId is spelled byte by byte in two hexadecimal digits |
| JsonForms.DecimalsAreSpelled | bson/json_util.py:945-946 | decimals as `str` writes them, every NaN by the one name |
| JsonForms.TextsAreSpelled | bson/json_util.py:835-873 | text, regular expressions, Code and Code with a scope |
| JsonForms.OthersAreSpelled | bson/json_util.py:941-958 | bool, None, Timestamp, MinKey and MaxKey |
| JsonForms.RefIsSpelled | bson/json_util.py:949-950 | a DBRef, with and without a database |
| JsonForms.ShortParsers | bson/json_util.py:795-814 | the parsers of `$oid`, `$ref`, `$date`, `$code`, `$uuid` and `$regex` |
| JsonForms.MiddleParsers | bson/json_util.py:795-814 | those of `$minKey`, `$maxKey`, `$binary`, `$symbol`, `$undefined` and `$timestamp` |
| JsonForms.LongParsers | bson/json_util.py:795-814 | those of the four numbers, `$dbPointer` and `$regularExpression` |
| JsonForms.SymbolAndUndefined | bson/json_util.py:664-805 | a symbol is read as a str, and undefined as None |
| JsonForms.PlainNumbers | bson/json_util.py:737-742 | a JSON number is taken for a long, and for a date within 64 bits |
| JsonForms.PointerIsRead | bson/json_util.py:708-724 | a DBPointer is read as a DBRef if and only if it points to an ObjectId, without database and extra fields |
| JsonForms.ExtraFieldRaises | bson/json_util.py:656-780 | a type wrapper with another field beside its own is refused |
| JsonForms.ValuesAreChecked | bson/json_util.py:672-780 | a wrapper is refused for a value of the wrong type, and `$code` for any other key beside it |
| JsonForms.PartsAreChecked | bson/json_util.py:573-792 | the parts inside `$binary`, `$regularExpression` and `$timestamp` are counted and checked |
| JsonForms.MethodNamesStopConversion | bson/json_util.py:487-500 | an extra DBRef field named `items` or `__iter__` stops the conversion; a Code with it in its scope is written as text, a DBRef around it is left as an object |
| JsonForms.NanByNumber | bson/json_util.py:884-892 | a double is NaN or infinite by the number its bits make |
| JsonForms.ClashesByName | bson/json_util.py:697-705 | the extra fields that clash with the parameters of `DBRef(...)` |

## Left out

- ExtendedJson.RestoresIff: legacy spellings (`$uuid`, `$regex`, `$type`, ISO-8601 dates) and a DBRef field named `_extra` are outside the model of the reader; none of them gives the document back.
- CWriter.WriteDict: key checking on is not modelled, because only the Python form is used as the specification there; a long is taken to have 64 bits and a char to be signed.
- CBatch.BatchedOpMsg: commands with a top-level `_id` are excluded, because the two forms order that field differently.
- Decimal.ToDecimal: follows the code up to its last `create_decimal` call, which is exact for coefficients below 10^34; rounding in `decimal.Context` is not modelled.
- Framing.ReceiveMessage: decompression is not modelled; a compressed frame is returned with its body still compressed.
- ReadMatching.EveryRunMatches: a transport that is closing is taken to deliver no more data, as asyncio promises; several concurrent readers are excluded, as an operation owns its connection.
- BulkMerge.ExecuteCommand: retryable write concern errors, unacknowledged writes and retries are not modelled; upserted documents are values, so their rewriting in place inside the reply is not visible.
- BulkMerge.NextBatch: the splitter without compression is used; with compression the limits differ by 16 bytes.
- ClientBulk.SelectBatch: operation documents are values, so the index written into the caller's dictionary is not visible afterwards.
- The C decoder, reference counting, allocation failure and exception rewrapping are left out as calls into CPython.
- Type registries, custom encoders and decoders, RawBSONDocument, native UUIDs and recursion limits are left out.
- Regular expressions with bytes patterns, `_decode_selective` and `decode_file_iter` are left out.
- The Python and C forms of `_batched_write_command` split one byte apart at the boundary; only the Python form is modelled.
- Cursors and the other message builders are left out as simple expressions.
- Local time, `cbson_mktime64` and the safe-year tables of bson/time64.c are left out, as they lean on the system's own functions.
- Relaxed and legacy JSON modes, JSON text, base64 and the text of doubles are left out; readers and writers of such text are parameters that invert each other.
- Sockets, TLS, timeouts, monitoring, authentication, encryption and server selection are left out.
