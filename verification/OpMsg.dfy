/**
 Bulk writes split into OP_MSG messages: `_batched_op_msg_impl` and `_batched_op_msg` of
 pymongo/message.py, and the loop that calls them until every document is sent.
 */
module OpMsg {
  import opened Bytes
  import opened Bson
  import opened Encoder
  import opened ByteStream
  import opened ReadBack
  import Streams

  /** The three limits of the connection; the message limit already less 16 when compressing. */
  datatype Limits = Limits(maxBsonSize: int, maxWriteBatchSize: int, maxMessageSize: int)

  /** `_BulkWriteContextBase.max_message_size`. */
  function ContextLimits(server: Limits, compress: bool): (r: Limits)
  {
    if compress then server.(maxMessageSize := server.maxMessageSize - 16) else server
  }

  datatype Failure = UnknownCommand | DocumentTooLarge(size: nat) | NotEncodable

  datatype Outcome<+T> = Done(value: T) | Raised(failure: Failure)

  /** `_OP_MSG_MAP`: the identifier of the document sequence, NUL included. */
  function OpMsgIdentifier(operation: int): (r: Option<Bytes>)
  {
    match operation
    case 0 => Some([0x64, 0x6f, 0x63, 0x75, 0x6d, 0x65, 0x6e, 0x74, 0x73, 0])   // documents
    case 1 => Some([0x75, 0x70, 0x64, 0x61, 0x74, 0x65, 0x73, 0])               // updates
    case 2 => Some([0x64, 0x65, 0x6c, 0x65, 0x74, 0x65, 0x73, 0])               // deletes
    case _ => None
  }

  function Flags(ack: bool): (r: Bytes) { if ack then [0, 0, 0, 0] else [2, 0, 0, 0] }

  /** What precedes the documents, with `size` in the section-length field. */
  function Preamble(ack: bool, command: Bytes, size: Bytes, identifier: Bytes): (r: Bytes)
    requires |size| == 4
    ensures |r| == |command| + |identifier| + 10
  {
    Flags(ack) + [0] + command + [1] + size + identifier
  }

  /** An OP_MSG body with one kind-1 section, as the MongoDB Wire Protocol lays it out. */
  function Body(ack: bool, command: Bytes, identifier: Bytes, documents: Bytes): (r: Bytes)
    requires |identifier| + |documents| + 4 <= MAX_INT32
  {
    Preamble(ack, command, PackInt32(|identifier| + |documents| + 4), identifier) + documents
  }

  // ---- choosing the prefix --------------------------------------------------------------

  /** The loop over the documents from index `i` on, `size` bytes into the message: how many
      documents the batch takes. */
  function Select(docs: seq<Fields>, i: nat, size: nat, ack: bool, limits: Limits): (r: Outcome<nat>)
    requires i <= |docs|
    decreases |docs| - i
    ensures r.Done? ==> i <= r.value <= |docs|
  {
    if i == |docs| then Done(i)
    else
      var value := EncodeDocument(docs[i], false);
      if value.None? then Raised(NotEncodable)
      else
        var newSize := size + |value.value|;
        if (i == 0 && newSize > limits.maxMessageSize) || (!ack && |value.value| > limits.maxBsonSize)
        then Raised(DocumentTooLarge(|value.value|))
        else if newSize > limits.maxMessageSize then Done(i)
        else if i + 1 == limits.maxWriteBatchSize then Done(i + 1)
        else Select(docs, i + 1, newSize, ack, limits)
  }

  /** The concatenated encodings of the documents, the bytes of the section. */
  function Stream(docs: seq<Fields>): (r: Bytes)
    requires Streams.EncodeStream(docs).Some?
  {
    Streams.EncodeStream(docs).value
  }

  lemma {:induction false} StreamAppend(a: seq<Fields>, b: seq<Fields>)
    ensures Streams.EncodeStream(a + b) == Concat(Streams.EncodeStream(a), Streams.EncodeStream(b))
  {
    hide EncodeDocument;
    if a == [] {
      assert a + b == b;
      var rest := Streams.EncodeStream(b);
      if rest.Some? {
        assert [] + rest.value == rest.value;
      }
    } else {
      StreamAppend(a[1..], b);
      assert (a + b)[1..] == a[1..] + b && (a + b)[0] == a[0];
      var first, rest := EncodeDocument(a[0], false), Streams.EncodeStream(a[1..]);
      if first.Some? && rest.Some? {
        ConcatAssoc(first.value, rest.value, Streams.EncodeStream(b));
      }
    }
  }

  lemma {:induction false} StreamOfOne(doc: Fields)
    ensures Streams.EncodeStream([doc]) == EncodeDocument(doc, false)
  {
    hide EncodeDocument;
    assert [doc][1..] == [];
    var v := EncodeDocument(doc, false);
    if v.Some? {
      assert v.value + [] == v.value;
    }
  }

  lemma {:induction false} StreamSnoc(docs: seq<Fields>, i: nat)
    requires i < |docs| && Streams.EncodeStream(docs[..i]).Some? && EncodeDocument(docs[i], false).Some?
    ensures Streams.EncodeStream(docs[..i + 1])
            == Some(Stream(docs[..i]) + EncodeDocument(docs[i], false).value)
  {
    hide EncodeDocument;
    assert docs[..i + 1] == docs[..i] + [docs[i]];
    StreamAppend(docs[..i], [docs[i]]);
    assert [docs[i]][1..] == [];
    assert Streams.EncodeStream([docs[i]]) == Concat(EncodeDocument(docs[i], false), Some([]));
    var v := EncodeDocument(docs[i], false).value;
    assert v + [] == v;
  }

  /** A prefix of length `n` within both limits, for a message that starts with `base` bytes. */
  ghost predicate Fits(docs: seq<Fields>, n: nat, base: nat, limits: Limits)
    requires n <= |docs|
  {
    && Streams.EncodeStream(docs[..n]).Some?
    && base + |Stream(docs[..n])| <= limits.maxMessageSize
    && n <= limits.maxWriteBatchSize
  }

  /** The batch is non-empty, within the limits, and no longer prefix is. */
  ghost predicate MaximalPrefix(docs: seq<Fields>, n: nat, base: nat, limits: Limits)
  {
    && 1 <= n <= |docs| && Fits(docs, n, base, limits)
    && (n < |docs| ==> !Fits(docs, n + 1, base, limits))
  }

  /** Greedy splitting is maximal: from any point of the loop that is still within the limits. */
  lemma {:induction false} SelectIsMaximal(docs: seq<Fields>, i: nat, base: nat, ack: bool, limits: Limits)
    requires limits.maxWriteBatchSize >= 1 && i < |docs|
    requires Streams.EncodeStream(docs[..i]).Some? && i < limits.maxWriteBatchSize
    requires i > 0 ==> Fits(docs, i, base, limits)
    requires Select(docs, i, base + |Stream(docs[..i])|, ack, limits).Done?
    decreases |docs| - i
    ensures MaximalPrefix(docs, Select(docs, i, base + |Stream(docs[..i])|, ack, limits).value, base, limits)
  {
    hide EncodeDocument, Streams.EncodeStream;
    StreamSnoc(docs, i);
    var size := base + |Stream(docs[..i])|;
    var value := EncodeDocument(docs[i], false).value;
    if size + |value| <= limits.maxMessageSize {
      assert Fits(docs, i + 1, base, limits);
      if i + 1 < limits.maxWriteBatchSize && i + 1 < |docs| {
        SelectIsMaximal(docs, i + 1, base, ack, limits);
      }
    }
  }

  /** Document `k` is refused for this reason; `before` bytes stand in front of the first. */
  ghost predicate DocumentRefused(docs: seq<Fields>, k: nat, before: nat, ack: bool, limits: Limits, failure: Failure)
    requires k < |docs|
  {
    var value := EncodeDocument(docs[k], false);
    match failure
    case UnknownCommand => false
    case NotEncodable => value.None?
    case DocumentTooLarge(size) =>
      && value.Some? && size == |value.value|
      && ((k == 0 && before + size > limits.maxMessageSize) || (!ack && size > limits.maxBsonSize))
  }

  /** A refused call names a document that really is too large for what the limits allow. */
  lemma {:induction false} SelectRefusal(docs: seq<Fields>, i: nat, size: nat, ack: bool, limits: Limits)
    requires i <= |docs|
    requires Select(docs, i, size, ack, limits).Raised?
    decreases |docs| - i
    ensures exists k :: i <= k < |docs|
              && DocumentRefused(docs, k, size, ack, limits, Select(docs, i, size, ack, limits).failure)
  {
    hide EncodeDocument;
    var failure := Select(docs, i, size, ack, limits).failure;
    if !DocumentRefused(docs, i, size, ack, limits, failure) {
      var newSize := size + |EncodeDocument(docs[i], false).value|;
      SelectRefusal(docs, i + 1, newSize, ack, limits);
      var k :| i + 1 <= k < |docs| && DocumentRefused(docs, k, newSize, ack, limits, failure);
      assert DocumentRefused(docs, k, size, ack, limits, failure);
    }
  }

  // ---- writing the message --------------------------------------------------------------

  /** Where the documents start: `start` bytes of header, then the preamble. */
  ghost function Base(start: nat, command: Fields, operation: int): (r: nat)
    requires EncodeDocument(command, false).Some? && OpMsgIdentifier(operation).Some?
  {
    start + |EncodeDocument(command, false).value| + |OpMsgIdentifier(operation).value| + 10
  }

  /** What a batch is: the documents taken and the OP_MSG body that carries them, or the failure. */
  ghost function BatchSpec(operation: int, command: Fields, docs: seq<Fields>, ack: bool, limits: Limits,
                           start: nat): (r: Outcome<(nat, Bytes)>)
  {
    var cmd := EncodeDocument(command, false);
    var identifier := OpMsgIdentifier(operation);
    if cmd.None? then Raised(NotEncodable)
    else if identifier.None? then Raised(UnknownCommand)
    else
      var n := Select(docs, 0, Base(start, command, operation), ack, limits);
      if n.Raised? then Raised(n.failure)
      else
        var stream := Streams.EncodeStream(docs[..n.value]);
        if stream.None? || |identifier.value| + |stream.value| + 4 > MAX_INT32 then Raised(NotEncodable)
        else Done((n.value, Body(ack, cmd.value, identifier.value, stream.value)))
  }

  /** A refused batch: an operation without a name, a command or a document that cannot be encoded, a
      document that is too large, or a section longer than its length field can say. */
  lemma {:induction false} BatchRefusal(operation: int, command: Fields, docs: seq<Fields>, ack: bool, limits: Limits,
                                        start: nat)
    requires BatchSpec(operation, command, docs, ack, limits, start).Raised?
    ensures var failure := BatchSpec(operation, command, docs, ack, limits, start).failure;
            || (failure == NotEncodable && EncodeDocument(command, false).None?)
            || (failure == UnknownCommand && operation != 0 && operation != 1 && operation != 2)
            || (&& EncodeDocument(command, false).Some? && OpMsgIdentifier(operation).Some?
                && exists k: nat :: k < |docs|
                     && DocumentRefused(docs, k, Base(start, command, operation), ack, limits, failure))
            || (&& failure == NotEncodable && OpMsgIdentifier(operation).Some?
                && exists n: nat :: n <= |docs| && Streams.EncodeStream(docs[..n]).Some?
                     && |OpMsgIdentifier(operation).value| + |Stream(docs[..n])| + 4 > MAX_INT32)
  {
    hide EncodeDocument, Select, Streams.EncodeStream;
    if EncodeDocument(command, false).Some? && OpMsgIdentifier(operation).Some? {
      var base := Base(start, command, operation);
      var n := Select(docs, 0, base, ack, limits);
      if n.Raised? {
        SelectRefusal(docs, 0, base, ack, limits);
        var k :| 0 <= k < |docs| && DocumentRefused(docs, k, base, ack, limits, n.failure);
      } else {
        SelectEncodes(docs, 0, base, ack, limits);
        assert docs[..n.value] == docs[0..n.value];
      }
    }
  }

  /** The documents taken are encodable. */
  lemma {:induction false} SelectEncodes(docs: seq<Fields>, i: nat, size: nat, ack: bool, limits: Limits)
    requires i <= |docs| && Select(docs, i, size, ack, limits).Done?
    decreases |docs| - i
    ensures Streams.EncodeStream(docs[i..Select(docs, i, size, ack, limits).value]).Some?
  {
    hide EncodeDocument;
    var n := Select(docs, i, size, ack, limits).value;
    if i < n {
      var value := EncodeDocument(docs[i], false).value;
      if i + 1 < n {
        SelectEncodes(docs, i + 1, size + |value|, ack, limits);
      }
      assert docs[i..n][0] == docs[i] && docs[i..n][1..] == docs[i + 1..n];
    }
  }

  lemma {:induction false} SelectFits(docs: seq<Fields>, i: nat, size: nat, limits: Limits, k: nat)
    requires i <= k && i <= |docs| && Select(docs, i, size, false, limits).Done?
    requires k < Select(docs, i, size, false, limits).value
    decreases |docs| - i
    ensures EncodeDocument(docs[k], false).Some? && |EncodeDocument(docs[k], false).value| <= limits.maxBsonSize
  {
    hide EncodeDocument;
    if i < k {
      SelectFits(docs, i + 1, size + |EncodeDocument(docs[i], false).value|, limits, k);
    }
  }

  /** Nobody would be told that a document of an unacknowledged batch is too large: none is. */
  lemma {:induction false} UnacknowledgedFits(operation: int, command: Fields, docs: seq<Fields>, limits: Limits,
                                              start: nat, k: nat)
    requires BatchSpec(operation, command, docs, false, limits, start).Done?
    requires k < BatchSpec(operation, command, docs, false, limits, start).value.0
    ensures EncodeDocument(docs[k], false).Some? && |EncodeDocument(docs[k], false).value| <= limits.maxBsonSize
  {
    hide EncodeDocument, Select;
    SelectFits(docs, 0, Base(start, command, operation), limits, k);
  }

  lemma {:induction false} FourFlags(ack: bool)
    ensures |Flags(ack)| == 4
  {
  }

  /** Patching the section length reserved by the preamble. */
  lemma {:induction false} PatchedBody(ack: bool, command: Bytes, identifier: Bytes, documents: Bytes, head: Bytes)
    requires |identifier| + |documents| + 4 <= MAX_INT32
    ensures Overwrite(head + Preamble(ack, command, [0, 0, 0, 0], identifier) + documents,
                      |head| + |command| + 6, PackInt32(|identifier| + |documents| + 4))
            == head + Body(ack, command, identifier, documents)
  {
    hide PackInt32, Overwrite, Flags;
    var a := head + (Flags(ack) + [0] + command + [1]);
    assert |Flags(ack)| == 4 by {
      FourFlags(ack);
    }
    var b := identifier + documents;
    var size := PackInt32(|identifier| + |documents| + 4);
    assert head + Preamble(ack, command, [0, 0, 0, 0], identifier) + documents == a + [0, 0, 0, 0] + b;
    assert head + Body(ack, command, identifier, documents) == a + size + b;
    OverwriteHole(a, [0, 0, 0, 0], b, size);
  }

  /** Flags, the command section, and the head of the document section with its length left open. */
  method WritePreamble(ack: bool, command: Bytes, identifier: Bytes, buf: BytesIO) returns (sizeLocation: nat)
    requires buf.Valid() && buf.pos == |buf.data|
    modifies buf
    ensures buf.Valid() && buf.pos == |buf.data|
    ensures sizeLocation == old(|buf.data|) + |command| + 6
    ensures buf.data == old(buf.data) + Preamble(ack, command, [0, 0, 0, 0], identifier)
  {
    ghost var head := buf.data;
    buf.Write(Flags(ack));
    buf.Write([0]);
    buf.Write(command);
    buf.Write([1]);
    sizeLocation := buf.pos;
    buf.Write([0, 0, 0, 0]);
    buf.Write(identifier);
    assert buf.data == head + Preamble(ack, command, [0, 0, 0, 0], identifier);
  }

  /** `_batched_op_msg_impl`: appends to `buf`, which holds the message header if there is one. */
  method BatchedOpMsgImpl(operation: int, command: Fields, docs: seq<Fields>, ack: bool, limits: Limits, buf: BytesIO)
    returns (r: Outcome<(seq<Fields>, nat)>)
    requires buf.Valid() && buf.pos == |buf.data|
    modifies buf
    ensures buf.Valid()
    ensures var spec := BatchSpec(operation, command, docs, ack, limits, old(|buf.data|));
            if spec.Raised? then r == Raised(spec.failure)
            else && r.Done? && r.value.0 == docs[..spec.value.0]
                 && buf.data == old(buf.data) + spec.value.1 && r.value.1 == |buf.data|
  {
    hide EncodeDocument, Preamble, Body, Overwrite, Select, Streams.EncodeStream, OpMsgIdentifier;
    var cmd := EncodeDocument(command, false);
    if cmd.None? {
      return Raised(NotEncodable);
    }
    var identifier := OpMsgIdentifier(operation);
    if identifier.None? {
      return Raised(UnknownCommand);
    }
    ghost var head := buf.data;
    var sizeLocation := WritePreamble(ack, cmd.value, identifier.value, buf);
    var toSend, failure := AppendDocuments(docs, ack, limits, buf);
    if failure.Some? {
      return Raised(failure.value);
    }
    // Write type 1 section size
    var length := buf.pos;
    if length - sizeLocation > MAX_INT32 {
      return Raised(NotEncodable);
    }
    PatchedBody(ack, cmd.value, identifier.value, Stream(toSend), head);
    buf.Seek(sizeLocation);
    buf.Write(PackInt32(length - sizeLocation));
    return Done((toSend, length));
  }

  /** The loop: writes documents until one of the limits is reached. */
  method AppendDocuments(docs: seq<Fields>, ack: bool, limits: Limits, buf: BytesIO)
    returns (toSend: seq<Fields>, failure: Option<Failure>)
    requires buf.Valid() && buf.pos == |buf.data|
    modifies buf
    ensures buf.Valid() && buf.pos == |buf.data|
    ensures var n := Select(docs, 0, old(|buf.data|), ack, limits);
            if n.Raised? then failure == Some(n.failure)
            else && failure.None? && toSend == docs[..n.value]
                 && Streams.EncodeStream(toSend).Some? && buf.data == old(buf.data) + Stream(toSend)
  {
    hide EncodeDocument;
    ghost var spec := Select(docs, 0, |buf.data|, ack, limits);
    ghost var start := buf.data;
    toSend := [];
    var idx := 0;
    assert start + [] == start;
    while idx < |docs|
      invariant idx <= |docs| && toSend == docs[..idx]
      invariant buf.Valid() && buf.pos == |buf.data|
      invariant Streams.EncodeStream(toSend).Some? && buf.data == start + Stream(toSend)
      invariant spec == Select(docs, idx, |buf.data|, ack, limits)
    {
      var value := EncodeDocument(docs[idx], false);
      if value.None? {
        return toSend, Some(NotEncodable);
      }
      var docLength := |value.value|;
      var newMessageSize := buf.pos + docLength;
      var docTooLarge := idx == 0 && newMessageSize > limits.maxMessageSize;
      var unackedDocTooLarge := !ack && docLength > limits.maxBsonSize;
      if docTooLarge || unackedDocTooLarge {
        return toSend, Some(DocumentTooLarge(docLength));
      }
      if newMessageSize > limits.maxMessageSize {
        break;
      }
      StreamSnoc(docs, idx);
      buf.Write(value.value);
      assert start + Stream(toSend) + value.value == start + (Stream(toSend) + value.value);
      toSend := toSend + [docs[idx]];
      assert toSend == docs[..idx + 1];
      if idx + 1 == limits.maxWriteBatchSize {
        idx := idx + 1;
        return toSend, None;
      }
      idx := idx + 1;
    }
    return toSend, None;
  }

  // ---- the whole message ----------------------------------------------------------------

  const RESPONSE_TO_AND_OPCODE: Bytes := [0, 0, 0, 0, 0xdd, 0x07, 0, 0]   // responseTo 0, opCode 2013

  /** Header and body of the finished message. */
  function Message(requestId: int, body: Bytes): (r: Bytes)
    requires IsInt32(requestId) && |body| + 16 <= MAX_INT32
    ensures |r| == |body| + 16
  {
    PackInt32(|body| + 16) + PackInt32(requestId) + RESPONSE_TO_AND_OPCODE + body
  }

  lemma {:induction false} PatchedHeader(requestId: Bytes, length: Bytes, body: Bytes)
    requires |requestId| == 4 && |length| == 4
    ensures var start := [0, 0, 0, 0, 0, 0, 0, 0] + RESPONSE_TO_AND_OPCODE + body;
            Overwrite(Overwrite(start, 4, requestId), 0, length)
            == length + requestId + RESPONSE_TO_AND_OPCODE + body
  {
    var start := [0, 0, 0, 0, 0, 0, 0, 0] + RESPONSE_TO_AND_OPCODE + body;
    var zero4: Bytes := [0, 0, 0, 0];
    assert start == zero4 + zero4 + (RESPONSE_TO_AND_OPCODE + body);
    OverwriteHole(zero4, zero4, RESPONSE_TO_AND_OPCODE + body, requestId);
    var middle := requestId + (RESPONSE_TO_AND_OPCODE + body);
    assert zero4 + requestId + (RESPONSE_TO_AND_OPCODE + body) == [] + zero4 + middle;
    OverwriteHole([], zero4, middle, length);
    assert [] + length + middle == length + requestId + RESPONSE_TO_AND_OPCODE + body;
  }

  /** `_batched_op_msg`; the random request id is a parameter. */
  method BatchedOpMsg(operation: int, command: Fields, docs: seq<Fields>, ack: bool, limits: Limits, requestId: int)
    returns (r: Outcome<(Bytes, seq<Fields>)>)
    requires IsInt32(requestId)
    ensures var spec := BatchSpec(operation, command, docs, ack, limits, 16);
            if spec.Raised? then r == Raised(spec.failure)
            else if |spec.value.1| + 16 > MAX_INT32 then r == Raised(NotEncodable)
            else r == Done((Message(requestId, spec.value.1), docs[..spec.value.0]))
  {
    hide BatchSpec, Overwrite, PackInt32;
    var buf := new BytesIO();
    buf.Write([0, 0, 0, 0, 0, 0, 0, 0]);
    buf.Write(RESPONSE_TO_AND_OPCODE);
    ghost var header := buf.data;
    var impl := BatchedOpMsgImpl(operation, command, docs, ack, limits, buf);
    if impl.Raised? {
      return Raised(impl.failure);
    }
    ghost var body := BatchSpec(operation, command, docs, ack, limits, 16).value.1;
    var (toSend, length) := impl.value;
    if length > MAX_INT32 {
      return Raised(NotEncodable);
    }
    PatchedHeader(PackInt32(requestId), PackInt32(length), body);
    assert header == [0, 0, 0, 0, 0, 0, 0, 0] + RESPONSE_TO_AND_OPCODE;
    buf.Seek(4);
    buf.Write(PackInt32(requestId));
    buf.Seek(0);
    buf.Write(PackInt32(length));
    return Done((buf.data, toSend));
  }

  /** Every batch that is not refused: a non-empty prefix within the count and size limits, maximal
      under them; the finished message keeps to the server's limit, header included, whether or not
      the body goes on to be compressed. */
  lemma {:induction false} BatchIsMaximal(operation: int, command: Fields, docs: seq<Fields>, ack: bool,
                                          server: Limits, compress: bool)
    requires server.maxWriteBatchSize >= 1 && docs != []
    requires BatchSpec(operation, command, docs, ack, ContextLimits(server, compress), if compress then 0 else 16).Done?
    ensures var start := if compress then 0 else 16;
            var (n, body) := BatchSpec(operation, command, docs, ack, ContextLimits(server, compress), start).value;
            && MaximalPrefix(docs, n, Base(start, command, operation), ContextLimits(server, compress))
            && MaximalPrefix(docs, n, Base(16, command, operation), server)
            && |body| + 16 <= server.maxMessageSize
            && |body| + 16 == Base(16, command, operation) + |Stream(docs[..n])|
  {
    hide EncodeDocument, Select, OpMsgIdentifier, Streams.EncodeStream;
    var limits := ContextLimits(server, compress);
    var start := if compress then 0 else 16;
    assert docs[..0] == [];
    EmptyStream();
    SelectIsMaximal(docs, 0, Base(start, command, operation), ack, limits);
  }

  lemma {:induction false} EmptyStream()
    ensures Streams.EncodeStream([]) == Some([])
  {
  }

  /** The document section of a batch reads back as exactly the documents sent, in order. */
  lemma {:induction false} BatchReadsBack(operation: int, command: Fields, docs: seq<Fields>, ack: bool,
                                          limits: Limits, start: nat)
    requires BatchSpec(operation, command, docs, ack, limits, start).Done?
    requires Streams.Faithful(docs)
    ensures var (n, body) := BatchSpec(operation, command, docs, ack, limits, start).value;
            var at := |EncodeDocument(command, false).value| + |OpMsgIdentifier(operation).value| + 10;
            && at <= |body|
            && Streams.DecodeAllSpec(body[at..], 0, []) == Some(Streams.ReadBackDocs(docs[..n]))
  {
    hide EncodeDocument, Select, OpMsgIdentifier, Streams.EncodeStream, Streams.DecodeAllSpec, Preamble,
         Streams.ReadBackDocs;
    var (n, body) := BatchSpec(operation, command, docs, ack, limits, start).value;
    var at := |EncodeDocument(command, false).value| + |OpMsgIdentifier(operation).value| + 10;
    var stream := Stream(docs[..n]);
    assert body[at..] == stream;
    assert stream[0..] == stream;
    Streams.DecodeAllReturnsTheList(docs[..n], stream, 0, []);
    assert [] + Streams.ReadBackDocs(docs[..n]) == Streams.ReadBackDocs(docs[..n]);
  }

  // ---- sending everything ---------------------------------------------------------------

  /** The driver's loop: each call gets the command built for it and the documents not yet sent.
      It always terminates; unless a call is refused, the batches concatenate to the input. */
  method SendAll(operation: int, commandAt: nat -> Fields, requestIdAt: nat -> int, ops: seq<Fields>, ack: bool,
                 limits: Limits)
    returns (batches: seq<seq<Fields>>, failure: Option<Failure>)
    requires limits.maxWriteBatchSize >= 1
    requires forall k :: IsInt32(requestIdAt(k))
    ensures forall k :: 0 <= k < |batches| ==> 1 <= |batches[k]| <= limits.maxWriteBatchSize
    ensures Flatten(batches) <= ops
    ensures failure.None? ==> Flatten(batches) == ops
  {
    hide EncodeDocument, Message;
    batches := [];
    var offset := 0;
    while offset < |ops|
      invariant offset <= |ops| && Flatten(batches) == ops[..offset]
      invariant forall k :: 0 <= k < |batches| ==> 1 <= |batches[k]| <= limits.maxWriteBatchSize
      decreases |ops| - offset
    {
      var rest := ops[offset..];
      var r := BatchedOpMsg(operation, commandAt(offset), rest, ack, limits, requestIdAt(offset));
      if r.Raised? {
        return batches, Some(r.failure);
      }
      var toSend := r.value.1;
      BatchIsMaximal(operation, commandAt(offset), rest, ack, limits, false);
      FlattenSnoc(batches, toSend);
      batches := batches + [toSend];
      assert ops[..offset + |toSend|] == ops[..offset] + toSend;
      offset := offset + |toSend|;
    }
    return batches, None;
  }
}
