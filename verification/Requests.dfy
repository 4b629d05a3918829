/**
 What a server sees of the messages that the batch splitters write.  The readers below follow the
 MongoDB Wire Protocol, section OP_MSG: a header, a flag word, then sections of kind 0, one document,
 or kind 1, a size, an identifier as C string and documents.  They know nothing of the writers.
 */
module Requests {
  import opened Bytes
  import opened Bson
  import opened Encoder
  import opened Framing
  import ClientBulk
  import OpMsg
  import Streams
  import WriteCommand

  datatype Section = Single(document: Bytes) | Sequence(identifier: Bytes, documents: seq<Bytes>)

  datatype Request = Request(moreToCome: bool, sections: seq<Section>)

  // ---- the readers ----------------------------------------------------------------------

  /** The length that a document at the head of `data` declares, if it is there. */
  function DocumentLength(data: Bytes): (r: Option<nat>)
    ensures r.Some? ==> 5 <= r.value <= |data|
  {
    if |data| < 5 then None
    else
      var size := UnpackInt32(data[..4]);
      if 5 <= size <= |data| then Some(size) else None
  }

  /** Documents one after another to the end of `data`. */
  function Documents(data: Bytes): (r: Option<seq<Bytes>>)
    decreases |data|
  {
    if data == [] then Some([])
    else
      var size := DocumentLength(data);
      if size.None? then None
      else
        var rest := Documents(data[size.value..]);
        if rest.None? then None else Some([data[..size.value]] + rest.value)
  }

  /** An identifier and its documents. */
  function SequenceOf(data: Bytes): (r: Option<Section>)
  {
    var nul := IndexOfNul(data, 0);
    if nul.None? then None
    else
      var documents := Documents(data[nul.value + 1..]);
      if documents.None? then None else Some(Sequence(data[..nul.value], documents.value))
  }

  /** The section at the head of `data`, and where it ends. */
  function FirstSection(data: Bytes): (r: Option<(Section, nat)>)
    requires data != []
    ensures r.Some? ==> 0 < r.value.1 <= |data|
  {
    if data[0] == 0 then
      var size := DocumentLength(data[1..]);
      if size.None? then None else Some((Single(data[1..1 + size.value]), 1 + size.value))
    else if data[0] == 1 && |data| >= 5 then
      var size := UnpackInt32(data[1..5]);
      if size < 4 || 1 + size > |data| then None
      else
        var section := SequenceOf(data[5..1 + size]);
        if section.None? then None else Some((section.value, 1 + size))
    else None
  }

  function Sections(data: Bytes): (r: Option<seq<Section>>)
    decreases |data|
  {
    if data == [] then Some([])
    else
      var first := FirstSection(data);
      if first.None? then None
      else
        var rest := Sections(data[first.value.1..]);
        if rest.None? then None else Some([first.value.0] + rest.value)
  }

  /** The body of a request; bit 1 of the flag word says that no reply is expected.  A request with
      another flag is not read here. */
  function RequestOf(body: Bytes): (r: Option<Request>)
  {
    if |body| < 4 || FromLe(body[..4]) / 4 != 0 || FromLe(body[..4]) % 2 != 0 then None
    else
      var sections := Sections(body[4..]);
      if sections.None? then None else Some(Request(FromLe(body[..4]) / 2 % 2 == 1, sections.value))
  }

  /** The request id of a message. */
  function RequestId(message: Bytes): (id: int)
    requires |message| >= HEADER_SIZE
  {
    UnpackInt32(message[4..8])
  }

  // ---- reading what was written ---------------------------------------------------------

  /** The encodings of the documents, one by one. */
  ghost predicate Encodings(docs: seq<Fields>, parts: seq<Bytes>)
  {
    |parts| == |docs| && forall i :: 0 <= i < |docs| ==> EncodeDocument(docs[i], false) == Some(parts[i])
  }

  lemma {:induction false} EncodedDocumentLength(doc: Fields, more: Bytes)
    requires EncodeDocument(doc, false).Some?
    ensures DocumentLength(EncodeDocument(doc, false).value + more) == Some(|EncodeDocument(doc, false).value|)
  {
    hide EncodeDocument, UnpackInt32;
    var d := EncodeDocument(doc, false).value;
    DeclaresItsLength(doc);
    assert (d + more)[..4] == d[..4];
  }

  /** A stream of encoded documents is cut into them. */
  lemma {:induction false} StreamIsCut(docs: seq<Fields>) returns (parts: seq<Bytes>)
    requires Streams.EncodeStream(docs).Some?
    ensures Documents(Streams.EncodeStream(docs).value) == Some(parts) && Encodings(docs, parts)
    decreases |docs|
  {
    hide EncodeDocument, DocumentLength;
    if docs == [] {
      parts := [];
    } else {
      var d, rest := EncodeDocument(docs[0], false).value, Streams.EncodeStream(docs[1..]).value;
      var tail := StreamIsCut(docs[1..]);
      EncodedDocumentLength(docs[0], rest);
      assert (d + rest)[..|d|] == d && (d + rest)[|d|..] == rest;
      parts := [d] + tail;
      assert forall i :: 0 < i < |docs| ==> docs[i] == docs[1..][i - 1] && parts[i] == tail[i - 1];
    }
  }

  /** A kind-0 section is read back. */
  lemma {:induction false} SingleIsRead(doc: Fields, more: Bytes)
    requires EncodeDocument(doc, false).Some?
    ensures var d := EncodeDocument(doc, false).value;
            Sections([0] + d + more)
            == if Sections(more).None? then None else Some([Single(d)] + Sections(more).value)
  {
    hide EncodeDocument, DocumentLength, SequenceOf, UnpackInt32;
    var d := EncodeDocument(doc, false).value;
    var data := [0] + d + more;
    assert data[1..] == d + more && data[1..1 + |d|] == d && data[1 + |d|..] == more;
    EncodedDocumentLength(doc, more);
    assert FirstSection(data) == Some((Single(d), 1 + |d|));
  }

  /** A kind-1 section is read back: its identifier is the name that was given. */
  lemma {:induction false} SequenceIsRead(name: Bytes, docs: seq<Fields>, more: Bytes) returns (parts: seq<Bytes>)
    requires NoNul(name) && Streams.EncodeStream(docs).Some?
    requires |name| + 1 + |Streams.EncodeStream(docs).value| + 4 <= MAX_INT32
    ensures Encodings(docs, parts)
    ensures var stream := Streams.EncodeStream(docs).value;
            var size := PackInt32(|name + [0]| + |stream| + 4);
            Sections([1] + size + (name + [0]) + stream + more)
            == if Sections(more).None? then None else Some([Sequence(name, parts)] + Sections(more).value)
  {
    hide Documents, PackInt32, UnpackInt32, Streams.EncodeStream, IndexOfNul;
    var stream := Streams.EncodeStream(docs).value;
    parts := StreamIsCut(docs);
    var n := |name + [0]| + |stream| + 4;
    var data := [1] + PackInt32(n) + (name + [0]) + stream + more;
    Int32RoundTrip(n);
    var body := data[5..1 + n];
    assert data[1..5] == PackInt32(n) && data[1 + n..] == more && body == name + [0] + stream;
    assert Has(body, 0, name + [0]);
    IndexOfNulAt(body, 0, name);
    assert body[..|name|] == name && body[|name| + 1..] == stream;
    assert FirstSection(data) == Some((Sequence(name, parts), 1 + n));
  }

  lemma {:induction false} FlagsAreRead(ack: bool, rest: Bytes)
    ensures var body := OpMsg.Flags(ack) + rest;
            RequestOf(body)
            == if Sections(rest).None? then None else Some(Request(!ack, Sections(rest).value))
  {
    hide Sections;
    var body := OpMsg.Flags(ack) + rest;
    assert body[..4] == OpMsg.Flags(ack) && body[4..] == rest;
    assert FromLe([0, 0, 0]) == 0 && FromLe([0, 0, 0, 0]) == 0;
    assert FromLe([2, 0, 0, 0]) == 2 + 256 * FromLe([2, 0, 0, 0][1..]) && [2, 0, 0, 0][1..] == [0, 0, 0];
  }

  // ---- the messages ---------------------------------------------------------------------

  /** The name under which the documents of an operation travel. */
  function SequenceName(operation: int): (name: Bytes)
    requires 0 <= operation <= 2
  {
    if operation == 0 then Ascii("documents") else if operation == 1 then Ascii("updates") else Ascii("deletes")
  }

  lemma {:induction false} IdentifierNames(operation: int)
    ensures OpMsg.OpMsgIdentifier(operation).Some? <==> 0 <= operation <= 2
    ensures 0 <= operation <= 2 ==>
              && OpMsg.OpMsgIdentifier(operation) == Some(SequenceName(operation) + [0])
              && NoNul(SequenceName(operation)) && WriteCommand.PayloadName(operation) == SequenceName(operation)
  {
    assert Ascii("documents") + [0] == [0x64, 0x6f, 0x63, 0x75, 0x6d, 0x65, 0x6e, 0x74, 0x73, 0];
    assert Ascii("updates") + [0] == [0x75, 0x70, 0x64, 0x61, 0x74, 0x65, 0x73, 0];
    assert Ascii("deletes") + [0] == [0x64, 0x65, 0x6c, 0x65, 0x74, 0x65, 0x73, 0];
  }

  lemma {:induction false} NoMoreSections()
    ensures Sections([]) == Some([])
  {
  }

  /** Every batch of an insert, update or delete says to a server: whether a reply is expected, the
      command, and under the name of the operation the documents taken, each in its own encoding. */
  lemma {:induction false} BatchSays(operation: int, command: Fields, docs: seq<Fields>, ack: bool,
                                     limits: OpMsg.Limits, start: nat) returns (parts: seq<Bytes>)
    requires OpMsg.BatchSpec(operation, command, docs, ack, limits, start).Done?
    ensures 0 <= operation <= 2
    ensures var (n, body) := OpMsg.BatchSpec(operation, command, docs, ack, limits, start).value;
            && Encodings(docs[..n], parts) && EncodeDocument(command, false).Some?
            && RequestOf(body)
               == Some(Request(!ack, [Single(EncodeDocument(command, false).value),
                                      Sequence(SequenceName(operation), parts)]))
  {
    hide EncodeDocument, OpMsg.Select, OpMsg.OpMsgIdentifier, OpMsg.Flags, Streams.EncodeStream, PackInt32, Sections,
         RequestOf, SequenceName, WriteCommand.PayloadName;
    var (n, body) := OpMsg.BatchSpec(operation, command, docs, ack, limits, start).value;
    IdentifierNames(operation);
    var cmd, name := EncodeDocument(command, false).value, SequenceName(operation);
    var stream := Streams.EncodeStream(docs[..n]).value;
    parts := SequenceIsRead(name, docs[..n], []);
    var size := PackInt32(|name + [0]| + |stream| + 4);
    var section := [1] + size + (name + [0]) + stream;
    assert section + [] == section;
    NoMoreSections();
    SingleIsRead(command, section);
    FlagsAreRead(ack, [0] + cmd + section);
    assert Sections(section) == Some([Sequence(name, parts)]) by {
      assert [Sequence(name, parts)] + [] == [Sequence(name, parts)];
    }
    assert [Single(cmd)] + [Sequence(name, parts)] == [Single(cmd), Sequence(name, parts)];
    assert body == OpMsg.Flags(ack) + ([0] + cmd + section);
  }

  function ClientRequest(ack: bool, command: Bytes, ops: seq<Bytes>, namespaces: seq<Bytes>): (r: Request)
  {
    Request(!ack, [Single(command), Sequence(Ascii("ops"), ops), Sequence(Ascii("nsInfo"), namespaces)])
  }

  /** Every client-level batch: the command, the operations under `ops`, the namespaces under `nsInfo`. */
  lemma {:induction false} ClientBatchSays(command: Fields, operations: seq<ClientBulk.Operation>, nss: seq<Bytes>,
                                           ack: bool, limits: OpMsg.Limits, batch: ClientBulk.Batch)
    returns (ops: seq<Bytes>, namespaces: seq<Bytes>)
    requires ClientBulk.BatchSpec(command, operations, nss, ack, limits) == ClientBulk.Outcome.Done(batch)
    ensures Encodings(batch.ops, ops) && Encodings(ClientBulk.NsDocs(batch.namespaces), namespaces)
    ensures EncodeDocument(command, false).Some?
    ensures RequestOf(batch.body) == Some(ClientRequest(ack, EncodeDocument(command, false).value, ops, namespaces))
  {
    hide EncodeDocument, ClientBulk.Select, OpMsg.Flags, Streams.EncodeStream, PackInt32, Sections, RequestOf,
         ClientBulk.Abridged, ClientBulk.FirstUses, ClientBulk.IndexedAll, ClientBulk.NsDocs;
    var cmd := EncodeDocument(command, false).value;
    var room := ClientBulk.Room(command, ack, limits).value;
    var n := ClientBulk.Select(operations, nss, 0, 0, ack, limits, room).value;
    var opsStream, nsStream := ClientBulk.OpsBytes(operations, nss, n).value, ClientBulk.NsBytes(nss, n).value;
    assert Ascii("ops") + [0] == ClientBulk.OPS && Ascii("nsInfo") + [0] == ClientBulk.NS_INFO;
    namespaces := SequenceIsRead(Ascii("nsInfo"), ClientBulk.NsDocs(batch.namespaces), []);
    var second := ClientBulk.Section(ClientBulk.NS_INFO, nsStream);
    assert second + [] == second;
    NoMoreSections();
    ops := SequenceIsRead(Ascii("ops"), batch.ops, second);
    var both := ClientBulk.Section(ClientBulk.OPS, opsStream) + second;
    SingleIsRead(command, both);
    FlagsAreRead(ack, [0] + cmd + both);
    var a, b := Sequence(Ascii("ops"), ops), Sequence(Ascii("nsInfo"), namespaces);
    assert Sections(second) == Some([b]) by {
      assert [b] + [] == [b];
    }
    assert [a] + [b] == [a, b] && [Single(cmd)] + [a, b] == [Single(cmd), a, b];
    assert batch.body == OpMsg.Flags(ack) + ([0] + cmd + both);
  }

  /** The header of a finished message: its length, its id, no response id, op code 2013. */
  lemma {:induction false} MessageSays(requestId: int, body: Bytes)
    requires IsInt32(requestId) && |body| + 16 <= MAX_INT32
    ensures var m := OpMsg.Message(requestId, body);
            && HeaderOf(m) == Header(|body| + 16, 0, 2013) && RequestId(m) == requestId && m[16..] == body
  {
    hide PackInt32, UnpackInt32;
    var m := OpMsg.Message(requestId, body);
    Int32RoundTrip(|body| + 16);
    Int32RoundTrip(requestId);
    assert m[..4] == PackInt32(|body| + 16) && m[4..8] == PackInt32(requestId);
    assert m[8..12] == [0, 0, 0, 0] && m[12..16] == [0xdd, 0x07, 0, 0];
    SmallWords();
  }

  lemma {:induction false} SmallWords()
    ensures UnpackInt32([0, 0, 0, 0]) == 0 && UnpackInt32([0xdd, 0x07, 0, 0]) == 2013
    ensures UnpackInt32([0xff, 0xff, 0xff, 0xff]) == -1
  {
    var zero, code, ones: Bytes := [0, 0, 0, 0], [0xdd, 0x07, 0, 0], [0xff, 0xff, 0xff, 0xff];
    assert zero[1..] == [0, 0, 0] && zero[1..][1..] == [0, 0] && zero[1..][1..][1..] == [0];
    assert code[1..] == [0x07, 0, 0] && code[1..][1..] == [0, 0] && code[1..][1..][1..] == [0];
    assert ones[1..] == [0xff, 0xff, 0xff] && ones[1..][1..] == [0xff, 0xff] && ones[1..][1..][1..] == [0xff];
  }

  /** What stands before the command of an OP_QUERY body (MongoDB Wire Protocol, section OP_QUERY). */
  datatype Query = Query(flags: int, collection: Bytes, skip: int, limit: int, document: Bytes)

  function QueryOf(body: Bytes): (r: Option<Query>)
  {
    if |body| < 4 then None
    else
      var nul := IndexOfNul(body, 4);
      if nul.None? || nul.value + 9 > |body| then None
      else
        var at := nul.value + 1;
        Some(Query(UnpackInt32(body[..4]), body[4..nul.value], UnpackInt32(body[at..at + 4]),
                   UnpackInt32(body[at + 4..at + 8]), body[at + 8..]))
  }

  /** A write command travels as a query for one document: no flags, nothing skipped, limit -1. */
  lemma {:induction false} QueryHeaderSays(namespace: Bytes, document: Bytes)
    requires NoNul(namespace)
    ensures QueryOf(WriteCommand.QueryHeader(namespace) + document) == Some(Query(0, namespace, 0, -1, document))
  {
    hide UnpackInt32, IndexOfNul;
    var body := WriteCommand.QueryHeader(namespace) + document;
    var at := |namespace| + 5;
    assert Has(body, 4, namespace + [0]);
    IndexOfNulAt(body, 4, namespace);
    assert body[..4] == [0, 0, 0, 0] && body[at..at + 4] == [0, 0, 0, 0];
    assert body[at + 4..at + 8] == [0xff, 0xff, 0xff, 0xff];
    assert body[4..at - 1] == namespace && body[at + 8..] == document;
    SmallWords();
  }

  // ---- names in a client-level bulk write -------------------------------------------------

  /** The field that carries an operation's namespace, and what the list of namespaces holds. */
  lemma {:induction false} OperationsSay(kind: ClientBulk.Kind, namespace: Bytes)
    ensures ClientBulk.OpKey(kind) == match kind
              case Insert => Ascii("insert")
              case Update => Ascii("update")
              case Replace => Ascii("update")
              case Delete => Ascii("delete")
    ensures ClientBulk.NsDoc(namespace) == [Field(Ascii("ns"), Text(namespace))]
    ensures ClientBulk.DOCUMENT_KEY == Ascii("document") && ClientBulk.UPDATE_MODS_KEY == Ascii("updateMods")
  {
    assert Ascii("ns") == ClientBulk.NS_KEY;
  }

  ghost predicate Needed(key: Bytes)
  {
    key == Ascii("bulkWrite") || key == Ascii("errorsOnly") || key == Ascii("ordered")
  }

  ghost predicate Counted(key: Bytes)
  {
    key == Ascii("bypassDocumentValidation") || key == Ascii("comment") || key == Ascii("let")
  }

  lemma {:induction false} CountedNames()
    ensures forall key :: Needed(key) <==>
              key == ClientBulk.BULK_WRITE_KEY || key == ClientBulk.ERRORS_ONLY_KEY || key == ClientBulk.ORDERED_KEY
    ensures forall key :: Counted(key) <==>
              key == ClientBulk.BYPASS_KEY || key == ClientBulk.COMMENT_KEY || key == ClientBulk.LET_KEY
    ensures forall key :: !(Needed(key) && Counted(key))
  {
    assert Ascii("bulkWrite") == ClientBulk.BULK_WRITE_KEY && Ascii("errorsOnly") == ClientBulk.ERRORS_ONLY_KEY;
    assert Ascii("ordered") == ClientBulk.ORDERED_KEY && Ascii("comment") == ClientBulk.COMMENT_KEY;
    assert Ascii("bypassDocumentValidation") == ClientBulk.BYPASS_KEY && Ascii("let") == ClientBulk.LET_KEY;
    assert ClientBulk.ORDERED_KEY[0] != ClientBulk.COMMENT_KEY[0];
  }

  /** What Python takes for false. */
  lemma {:induction false} FalseValues(v: Value)
    ensures !ClientBulk.Truthy(v) <==>
            || v == Null || v == Bool(false) || v == Int(0) || v == Int64(0) || v == Text([]) || v == Code([])
            || v == Mapping([]) || v == List([]) || v == RawBytes([]) || (v.Binary? && v.data == [])
            || (v.CodeWithScope? && v.code == [])
            || v == Float([0, 0, 0, 0, 0, 0, 0, 0]) || v == Float([0, 0, 0, 0, 0, 0, 0, 0x80])
  {
    if v.Float? {
      assert v.bits == v.bits[..7] + [v.bits[7]];
    }
  }

  lemma {:induction false} LookedUp(command: Fields, key: Bytes)
    requires Distinct(command)
    ensures forall i :: 0 <= i < |command| && command[i].key == key ==> Field(key, Get(command, key)) == command[i]
    ensures HasKey(command, key) ==> Field(key, Get(command, key)) in command
    ensures !HasKey(command, key) ==> Get(command, key) == Null
  {
    hide Get;
    if HasKey(command, key) {
      var i :| 0 <= i < |command| && command[i].key == key;
      GetAt(command, i);
    } else {
      GetAbsent(command, key);
    }
    forall i | 0 <= i < |command| && command[i].key == key ensures Field(key, Get(command, key)) == command[i] {
      GetAt(command, i);
    }
  }

  /** The fields counted against the room: the three that must be there, and of the other three those
      with a value that is true. */
  lemma {:induction false} AbridgedSays(command: Fields)
    requires Distinct(command)
    ensures var r := ClientBulk.Abridged(command);
            && (r.Some? <==> HasKey(command, Ascii("bulkWrite")) && HasKey(command, Ascii("errorsOnly"))
                             && HasKey(command, Ascii("ordered")))
            && (r.Some? ==> Distinct(r.value) && forall f :: f in r.value <==>
                  f in command && (Needed(f.key) || (Counted(f.key) && ClientBulk.Truthy(f.value))))
  {
    hide Get, HasKey, ClientBulk.Truthy, Needed, Counted;
    CountedNames();
    NamesDiffer();
    AbridgedKeys();
    LookedUp(command, ClientBulk.BULK_WRITE_KEY);
    LookedUp(command, ClientBulk.ERRORS_ONLY_KEY);
    LookedUp(command, ClientBulk.ORDERED_KEY);
    LookedUp(command, ClientBulk.BYPASS_KEY);
    LookedUp(command, ClientBulk.COMMENT_KEY);
    LookedUp(command, ClientBulk.LET_KEY);
    FalseValues(Null);
  }

  lemma {:induction false} NamesDiffer()
    ensures ClientBulk.BULK_WRITE_KEY != ClientBulk.ERRORS_ONLY_KEY
    ensures ClientBulk.BULK_WRITE_KEY != ClientBulk.ORDERED_KEY && ClientBulk.ERRORS_ONLY_KEY != ClientBulk.ORDERED_KEY
    ensures ClientBulk.BYPASS_KEY != ClientBulk.COMMENT_KEY
    ensures ClientBulk.BYPASS_KEY != ClientBulk.LET_KEY && ClientBulk.COMMENT_KEY != ClientBulk.LET_KEY
  {
  }

  lemma {:induction false} AbridgedKeys()
    ensures Ascii("bulkWrite") == ClientBulk.BULK_WRITE_KEY && Ascii("errorsOnly") == ClientBulk.ERRORS_ONLY_KEY
    ensures Ascii("ordered") == ClientBulk.ORDERED_KEY
  {
  }
}
