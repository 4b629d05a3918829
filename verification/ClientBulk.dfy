/**
 The client-level bulkWrite command: `_client_batched_op_msg_impl` and `_client_construct_op_msg`
 of pymongo/message.py.  A batch carries two document sequences, the operations and the namespaces
 they use; an operation names its namespace by its index in the second.
 */
module ClientBulk {
  import opened Bytes
  import opened Bson
  import opened Encoder
  import opened ByteStream
  import Streams
  import OpMsg

  const OP_MSG_OVERHEAD := 1000
  const COMMAND_OVERHEAD := 16382

  datatype Kind = Insert | Update | Replace | Delete

  datatype Operation = Operation(kind: Kind, doc: Fields)

  datatype Failure = KeyMissing | DocumentTooLarge(size: nat) | NotEncodable

  datatype Outcome<+T> = Done(value: T) | Raised(failure: Failure)

  // ASCII spellings of the field names.
  const INSERT_KEY: Bytes := [0x69, 0x6e, 0x73, 0x65, 0x72, 0x74]
  const UPDATE_KEY: Bytes := [0x75, 0x70, 0x64, 0x61, 0x74, 0x65]
  const DELETE_KEY: Bytes := [0x64, 0x65, 0x6c, 0x65, 0x74, 0x65]
  const DOCUMENT_KEY: Bytes := [0x64, 0x6f, 0x63, 0x75, 0x6d, 0x65, 0x6e, 0x74]
  const UPDATE_MODS_KEY: Bytes := [0x75, 0x70, 0x64, 0x61, 0x74, 0x65, 0x4d, 0x6f, 0x64, 0x73]
  const NS_KEY: Bytes := [0x6e, 0x73]
  const OPS: Bytes := [0x6f, 0x70, 0x73, 0]
  const NS_INFO: Bytes := [0x6e, 0x73, 0x49, 0x6e, 0x66, 0x6f, 0]
  const BULK_WRITE_KEY: Bytes := [0x62, 0x75, 0x6c, 0x6b, 0x57, 0x72, 0x69, 0x74, 0x65]
  const ERRORS_ONLY_KEY: Bytes := [0x65, 0x72, 0x72, 0x6f, 0x72, 0x73, 0x4f, 0x6e, 0x6c, 0x79]
  const ORDERED_KEY: Bytes := [0x6f, 0x72, 0x64, 0x65, 0x72, 0x65, 0x64]
  const BYPASS_KEY: Bytes :=
    [0x62, 0x79, 0x70, 0x61, 0x73, 0x73, 0x44, 0x6f, 0x63, 0x75, 0x6d, 0x65, 0x6e, 0x74,
     0x56, 0x61, 0x6c, 0x69, 0x64, 0x61, 0x74, 0x69, 0x6f, 0x6e]
  const COMMENT_KEY: Bytes := [0x63, 0x6f, 0x6d, 0x6d, 0x65, 0x6e, 0x74]
  const LET_KEY: Bytes := [0x6c, 0x65, 0x74]

  /** A replacement travels as an update. */
  function OpKey(kind: Kind): (key: Bytes)
  {
    match kind
    case Insert => INSERT_KEY
    case Update => UPDATE_KEY
    case Replace => UPDATE_KEY
    case Delete => DELETE_KEY
  }

  // ---- namespaces -----------------------------------------------------------------------

  /** The distinct namespaces in the order of their first use. */
  function FirstUses(nss: seq<Bytes>): (r: seq<Bytes>)
  {
    if nss == [] then []
    else
      var before, last := FirstUses(nss[..|nss| - 1]), nss[|nss| - 1];
      if last in before then before else before + [last]
  }

  function IndexOf(s: seq<Bytes>, x: Bytes): (i: nat)
    requires x in s
    ensures i < |s| && s[i] == x && x !in s[..i]
  {
    if s[0] == x then 0 else 1 + IndexOf(s[1..], x)
  }

  ghost predicate NoDuplicates(s: seq<Bytes>)
  {
    forall i, j :: 0 <= i < j < |s| ==> s[i] != s[j]
  }

  /** Exactly the namespaces used, each once. */
  lemma {:induction false} FirstUsesAreDistinct(nss: seq<Bytes>)
    ensures NoDuplicates(FirstUses(nss))
    ensures forall x :: x in FirstUses(nss) <==> x in nss
  {
    if nss != [] {
      var k := |nss| - 1;
      FirstUsesAreDistinct(nss[..k]);
      assert nss == nss[..k] + [nss[k]];
    }
  }

  /** Later operations only add namespaces at the end. */
  lemma {:induction false} FirstUsesGrow(nss: seq<Bytes>, i: nat, j: nat)
    requires i <= j <= |nss|
    ensures FirstUses(nss[..i]) <= FirstUses(nss[..j])
  {
    if i < j {
      FirstUsesGrow(nss, i, j - 1);
      assert nss[..j][..j - 1] == nss[..j - 1];
    }
  }

  lemma {:induction false} FirstUsesStep(nss: seq<Bytes>, i: nat)
    requires i < |nss|
    ensures var before := FirstUses(nss[..i]);
            FirstUses(nss[..i + 1]) == if nss[i] in before then before else before + [nss[i]]
    ensures nss[i] in FirstUses(nss[..i + 1])
  {
    assert nss[..i + 1][..i] == nss[..i];
  }

  /** The order is that of first use: a namespace listed earlier is first used earlier. */
  lemma {:induction false} FirstUsesInOrder(nss: seq<Bytes>, a: nat, b: nat)
    requires a < b < |FirstUses(nss)|
    ensures var s := FirstUses(nss); s[a] in nss && s[b] in nss && IndexOf(nss, s[a]) < IndexOf(nss, s[b])
  {
    var s := FirstUses(nss);
    var k := |nss| - 1;
    var before := FirstUses(nss[..k]);
    FirstUsesAreDistinct(nss);
    FirstUsesAreDistinct(nss[..k]);
    assert nss == nss[..k] + [nss[k]];
    if b < |before| {
      FirstUsesInOrder(nss[..k], a, b);
      IndexOfPrefix(nss, k, s[a]);
      IndexOfPrefix(nss, k, s[b]);
    } else {
      assert s[b] == nss[k] && s[b] !in nss[..k];
      IndexOfPrefix(nss, k, s[a]);
      assert forall i :: 0 <= i < k ==> nss[..k][i] == nss[i];
      assert IndexOf(nss, s[b]) >= k;
    }
  }

  lemma {:induction false} IndexOfPrefix(s: seq<Bytes>, k: nat, x: Bytes)
    requires k <= |s| && x in s[..k]
    ensures x in s && IndexOf(s, x) == IndexOf(s[..k], x) < k
  {
    if s[0] != x {
      assert s[..k][1..] == s[1..][..k - 1];
      assert x in s[1..][..k - 1] by {
        var i :| 0 <= i < k && s[..k][i] == x;
        assert s[1..][..k - 1][i - 1] == x;
      }
      IndexOfPrefix(s[1..], k - 1, x);
    }
  }

  // ---- what a batch holds ---------------------------------------------------------------

  function NsDoc(ns: Bytes): (r: Fields) { [Field(NS_KEY, Text(ns))] }

  function NsDocs(nss: seq<Bytes>): (r: seq<Fields>)
    ensures |r| == |nss|
  {
    seq(|nss|, i requires 0 <= i < |nss| => NsDoc(nss[i]))
  }

  /** Operation `i` with the index of its namespace filled in. */
  function Indexed(operations: seq<Operation>, nss: seq<Bytes>, i: nat): (r: Fields)
    requires i < |operations| && i < |nss|
  {
    FirstUsesStep(nss, i);
    Put(operations[i].doc, OpKey(operations[i].kind), Int(IndexOf(FirstUses(nss[..i + 1]), nss[i])))
  }

  function IndexedAll(operations: seq<Operation>, nss: seq<Bytes>, n: nat): (r: seq<Fields>)
    requires n <= |operations| && n <= |nss|
    ensures |r| == n
  {
    seq(n, i requires 0 <= i < n => Indexed(operations, nss, i))
  }

  /** In every batch of `n` operations each one carries the index of its own namespace. */
  lemma {:induction false} OperationNamesItsNamespace(operations: seq<Operation>, nss: seq<Bytes>, n: nat, i: nat)
    requires i < n <= |operations| && n <= |nss|
    ensures var v := Get(IndexedAll(operations, nss, n)[i], OpKey(operations[i].kind));
            v.Int? && 0 <= v.n < |FirstUses(nss[..n])| && FirstUses(nss[..n])[v.n] == nss[i]
  {
    FirstUsesStep(nss, i);
    FirstUsesGrow(nss, i + 1, n);
    GetAfterPut(operations[i].doc, OpKey(operations[i].kind), Int(IndexOf(FirstUses(nss[..i + 1]), nss[i])));
  }

  // ---- choosing the prefix --------------------------------------------------------------

  function Count(operations: seq<Operation>, nss: seq<Bytes>): (n: nat)
  {
    if |operations| <= |nss| then |operations| else |nss|
  }

  /** The client-side size checks of an unacknowledged insert or replace. */
  function PayloadFailure(op: Operation, ack: bool, limits: OpMsg.Limits): (r: Option<Failure>)
  {
    if ack || !(op.kind.Insert? || op.kind.Replace?) then None
    else
      var key := if op.kind.Insert? then DOCUMENT_KEY else UPDATE_MODS_KEY;
      if !HasKey(op.doc, key) then Some(KeyMissing)
      else if !Get(op.doc, key).Mapping? then Some(NotEncodable)
      else
        var doc := EncodeDocument(Get(op.doc, key).fields, false);
        if doc.None? then Some(NotEncodable)
        else if |doc.value| > limits.maxBsonSize then Some(DocumentTooLarge(|doc.value|))
        else None
  }

  /** The bytes that operation `i` and, if it is new, its namespace would add. */
  function Addition(operations: seq<Operation>, nss: seq<Bytes>, i: nat): (r: Option<nat>)
    requires i < |operations| && i < |nss|
  {
    var op := EncodeDocument(Indexed(operations, nss, i), false);
    if op.None? then None
    else if nss[i] in FirstUses(nss[..i]) then Some(|op.value|)
    else
      var ns := EncodeDocument(NsDoc(nss[i]), false);
      if ns.None? then None else Some(|op.value| + |ns.value|)
  }

  /** The loop from operation `i` on, with `total` bytes taken: how many operations the batch has. */
  function Select(operations: seq<Operation>, nss: seq<Bytes>, i: nat, total: nat, ack: bool,
                  limits: OpMsg.Limits, room: int): (r: Outcome<nat>)
    requires i <= Count(operations, nss)
    decreases Count(operations, nss) - i
    ensures r.Done? ==> i <= r.value <= Count(operations, nss)
  {
    if i == Count(operations, nss) then Done(i)
    else if PayloadFailure(operations[i], ack, limits).Some? then
      Raised(PayloadFailure(operations[i], ack, limits).value)
    else if Addition(operations, nss, i).None? then Raised(NotEncodable)
    else
      var opLength := |EncodeDocument(Indexed(operations, nss, i), false).value|;
      var newTotal := total + Addition(operations, nss, i).value;
      if !ack && opLength > limits.maxBsonSize + COMMAND_OVERHEAD then Raised(DocumentTooLarge(opLength))
      else if newTotal > room then (if i == 0 then Raised(DocumentTooLarge(opLength)) else Done(i))
      else if i + 1 == limits.maxWriteBatchSize then Done(i + 1)
      else Select(operations, nss, i + 1, newTotal, ack, limits, room)
  }

  ghost function OpsBytes(operations: seq<Operation>, nss: seq<Bytes>, n: nat): (r: Option<Bytes>)
    requires n <= Count(operations, nss)
  {
    Streams.EncodeStream(IndexedAll(operations, nss, n))
  }

  ghost function NsBytes(nss: seq<Bytes>, n: nat): (r: Option<Bytes>)
    requires n <= |nss|
  {
    Streams.EncodeStream(NsDocs(FirstUses(nss[..n])))
  }

  /** Both sequences of the first `n` operations. */
  ghost predicate Encodable(operations: seq<Operation>, nss: seq<Bytes>, n: nat)
    requires n <= Count(operations, nss)
  {
    OpsBytes(operations, nss, n).Some? && NsBytes(nss, n).Some?
  }

  ghost function Total(operations: seq<Operation>, nss: seq<Bytes>, n: nat): (r: nat)
    requires n <= Count(operations, nss) && Encodable(operations, nss, n)
  {
    |OpsBytes(operations, nss, n).value| + |NsBytes(nss, n).value|
  }

  /** One operation more: both sequences grow by exactly the addition. */
  lemma {:induction false} SequencesGrow(operations: seq<Operation>, nss: seq<Bytes>, i: nat)
    requires i < Count(operations, nss) && Encodable(operations, nss, i)
    ensures var op := EncodeDocument(Indexed(operations, nss, i), false);
            OpsBytes(operations, nss, i + 1) == Concat(OpsBytes(operations, nss, i), op)
    ensures IndexedAll(operations, nss, i + 1) == IndexedAll(operations, nss, i) + [Indexed(operations, nss, i)]
    ensures NsBytes(nss, i + 1) == if nss[i] in FirstUses(nss[..i]) then NsBytes(nss, i)
                                   else Concat(NsBytes(nss, i), EncodeDocument(NsDoc(nss[i]), false))
    ensures Encodable(operations, nss, i + 1) <==> Addition(operations, nss, i).Some?
    ensures Encodable(operations, nss, i + 1) ==>
              Total(operations, nss, i + 1) == Total(operations, nss, i) + Addition(operations, nss, i).value
  {
    hide EncodeDocument, Streams.EncodeStream, Indexed, FirstUses;
    var doc := Indexed(operations, nss, i);
    assert IndexedAll(operations, nss, i + 1) == IndexedAll(operations, nss, i) + [doc];
    OpMsg.StreamAppend(IndexedAll(operations, nss, i), [doc]);
    OpMsg.StreamOfOne(doc);
    FirstUsesStep(nss, i);
    var before := FirstUses(nss[..i]);
    if nss[i] !in before {
      assert NsDocs(before + [nss[i]]) == NsDocs(before) + [NsDoc(nss[i])];
      OpMsg.StreamAppend(NsDocs(before), [NsDoc(nss[i])]);
      OpMsg.StreamOfOne(NsDoc(nss[i]));
    }
  }

  /** The batch is non-empty, within the room and the count, and cannot take one operation more. */
  ghost predicate MaximalBatch(operations: seq<Operation>, nss: seq<Bytes>, n: nat, limits: OpMsg.Limits, room: int)
  {
    && 1 <= n <= Count(operations, nss) && n <= limits.maxWriteBatchSize
    && Encodable(operations, nss, n) && Total(operations, nss, n) <= room
    && (n < Count(operations, nss) && n < limits.maxWriteBatchSize ==>
          Encodable(operations, nss, n + 1) && Total(operations, nss, n + 1) > room)
  }

  lemma {:induction false} SelectIsMaximal(operations: seq<Operation>, nss: seq<Bytes>, i: nat, ack: bool,
                                           limits: OpMsg.Limits, room: int)
    requires i < Count(operations, nss) && i < limits.maxWriteBatchSize && Encodable(operations, nss, i)
    requires i > 0 ==> Total(operations, nss, i) <= room
    requires Select(operations, nss, i, Total(operations, nss, i), ack, limits, room).Done?
    decreases Count(operations, nss) - i
    ensures MaximalBatch(operations, nss,
                         Select(operations, nss, i, Total(operations, nss, i), ack, limits, room).value, limits, room)
  {
    hide EncodeDocument, Indexed, Addition, PayloadFailure, OpsBytes, NsBytes;
    SequencesGrow(operations, nss, i);
    var newTotal := Total(operations, nss, i) + Addition(operations, nss, i).value;
    if newTotal <= room && i + 1 < limits.maxWriteBatchSize && i + 1 < Count(operations, nss) {
      SelectIsMaximal(operations, nss, i + 1, ack, limits, room);
    }
  }

  /** Why operation `k` is refused with `failure`. */
  ghost predicate Refuses(operations: seq<Operation>, nss: seq<Bytes>, k: nat, total: nat, ack: bool,
                          limits: OpMsg.Limits, room: int, failure: Failure)
    requires k < Count(operations, nss)
  {
    || PayloadFailure(operations[k], ack, limits) == Some(failure)
    || (failure.NotEncodable? && Addition(operations, nss, k).None?)
    || (&& failure.DocumentTooLarge? && Addition(operations, nss, k).Some?
        && failure.size == |EncodeDocument(Indexed(operations, nss, k), false).value|
        && (|| (!ack && failure.size > limits.maxBsonSize + 16382)
            || (k == 0 && total + Addition(operations, nss, k).value > room)))
  }

  /** A refusal names an operation that really cannot be encoded or is too large. */
  lemma {:induction false} SelectRefusal(operations: seq<Operation>, nss: seq<Bytes>, i: nat, total: nat, ack: bool,
                                         limits: OpMsg.Limits, room: int) returns (k: nat)
    requires i <= Count(operations, nss) && Select(operations, nss, i, total, ack, limits, room).Raised?
    decreases Count(operations, nss) - i
    ensures i <= k < Count(operations, nss)
    ensures var failure := Select(operations, nss, i, total, ack, limits, room).failure;
            Refuses(operations, nss, k, total, ack, limits, room, failure)
  {
    hide EncodeDocument, Indexed, Addition, PayloadFailure;
    k := i;
    var failure := Select(operations, nss, i, total, ack, limits, room).failure;
    if !Refuses(operations, nss, i, total, ack, limits, room, failure) {
      k := SelectRefusal(operations, nss, i + 1, total + Addition(operations, nss, i).value, ack, limits, room);
    }
  }

  /** A document that an operation carries under `key`, of at most `max` bytes. */
  ghost predicate Carries(op: Operation, key: Bytes, max: int)
  {
    exists i :: 0 <= i < |op.doc| && op.doc[i].key == key && op.doc[i].value.Mapping?
      && EncodeDocument(op.doc[i].value.fields, false).Some?
      && |EncodeDocument(op.doc[i].value.fields, false).value| <= max
  }

  lemma {:induction false} PayloadFits(op: Operation, limits: OpMsg.Limits)
    requires PayloadFailure(op, false, limits).None?
    ensures op.kind.Insert? ==> Carries(op, Ascii("document"), limits.maxBsonSize)
    ensures op.kind.Replace? ==> Carries(op, Ascii("updateMods"), limits.maxBsonSize)
  {
    hide EncodeDocument, Get;
    assert Ascii("document") == DOCUMENT_KEY && Ascii("updateMods") == UPDATE_MODS_KEY;
    if op.kind.Insert? {
      GetStands(op.doc, DOCUMENT_KEY);
    } else if op.kind.Replace? {
      GetStands(op.doc, UPDATE_MODS_KEY);
    }
  }

  /** And nothing else is refused for what it carries. */
  lemma {:induction false} PayloadIff(op: Operation, ack: bool, limits: OpMsg.Limits)
    requires Distinct(op.doc)
    ensures PayloadFailure(op, ack, limits).None? <==>
            || ack || op.kind.Update? || op.kind.Delete?
            || (op.kind.Insert? && Carries(op, Ascii("document"), limits.maxBsonSize))
            || (op.kind.Replace? && Carries(op, Ascii("updateMods"), limits.maxBsonSize))
  {
    hide EncodeDocument, Get;
    assert Ascii("document") == DOCUMENT_KEY && Ascii("updateMods") == UPDATE_MODS_KEY;
    var key := if op.kind.Insert? then DOCUMENT_KEY else UPDATE_MODS_KEY;
    forall i | 0 <= i < |op.doc| && op.doc[i].key == key ensures Get(op.doc, key) == op.doc[i].value {
      GetAt(op.doc, i);
    }
    if HasKey(op.doc, key) {
      GetStands(op.doc, key);
    }
  }

  lemma {:induction false} GetStands(fs: Fields, key: Bytes)
    requires HasKey(fs, key)
    ensures exists i :: 0 <= i < |fs| && fs[i].key == key && fs[i].value == Get(fs, key)
  {
    if fs[0].key != key {
      var i :| 0 <= i < |fs| && fs[i].key == key;
      assert fs[1..][i - 1] == fs[i];
      GetStands(fs[1..], key);
      var j :| 0 <= j < |fs| - 1 && fs[1..][j].key == key && fs[1..][j].value == Get(fs[1..], key);
      assert fs[j + 1] == fs[1..][j];
    }
  }

  /** Nobody would be told that part of an unacknowledged batch is too large: every inserted document,
      every replacement and every operation keeps to its limit. */
  lemma {:induction false} UnacknowledgedFits(operations: seq<Operation>, nss: seq<Bytes>, i: nat, total: nat,
                                              limits: OpMsg.Limits, room: int, k: nat)
    requires i <= k && i <= Count(operations, nss) && Select(operations, nss, i, total, false, limits, room).Done?
    requires k < Select(operations, nss, i, total, false, limits, room).value
    decreases Count(operations, nss) - i
    ensures operations[k].kind.Insert? ==> Carries(operations[k], Ascii("document"), limits.maxBsonSize)
    ensures operations[k].kind.Replace? ==> Carries(operations[k], Ascii("updateMods"), limits.maxBsonSize)
    ensures EncodeDocument(Indexed(operations, nss, k), false).Some?
            && |EncodeDocument(Indexed(operations, nss, k), false).value| <= limits.maxBsonSize + 16382
  {
    hide EncodeDocument, Indexed, PayloadFailure, Carries, FirstUses;
    if i < k {
      var next := total + Addition(operations, nss, i).value;
      UnacknowledgedFits(operations, nss, i + 1, next, limits, room, k);
    } else {
      PayloadFits(operations[k], limits);
    }
  }

  // ---- the command's own share ----------------------------------------------------------

  /** Python truth of a value. */
  function Truthy(v: Value): (r: bool)
  {
    match v
    case Float(bits) => !(bits[..7] == [0, 0, 0, 0, 0, 0, 0] && (bits[7] == 0 || bits[7] == 0x80))
    case Text(utf8) => utf8 != []
    case Mapping(fields) => fields != []
    case List(items) => items != []
    case RawBytes(data) => data != []
    case Binary(data, _) => data != []
    case Bool(b) => b
    case Null => false
    case Code(code) => code != []
    case CodeWithScope(code, _) => code != []
    case Int(n) => n != 0
    case Int64(n) => n != 0
    case _ => true
  }

  function Optional(command: Fields, key: Bytes): (r: Fields)
  {
    if Truthy(Get(command, key)) then [Field(key, Get(command, key))] else []
  }

  /** `command_abridged`: the fields that count against the room; None stands for a KeyError. */
  function Abridged(command: Fields): (r: Option<Fields>)
  {
    if !HasKey(command, BULK_WRITE_KEY) || !HasKey(command, ERRORS_ONLY_KEY) || !HasKey(command, ORDERED_KEY) then None
    else Some([Field(BULK_WRITE_KEY, Get(command, BULK_WRITE_KEY)),
               Field(ERRORS_ONLY_KEY, Get(command, ERRORS_ONLY_KEY)),
               Field(ORDERED_KEY, Get(command, ORDERED_KEY))]
              + Optional(command, BYPASS_KEY) + Optional(command, COMMENT_KEY) + Optional(command, LET_KEY))
  }

  /** The room for both sequences, or the failure that comes before any operation is looked at. */
  function Room(command: Fields, ack: bool, limits: OpMsg.Limits): (r: Outcome<int>)
  {
    var cmd := EncodeDocument(command, false);
    if cmd.None? then Raised(NotEncodable)
    else if !ack && |cmd.value| > limits.maxBsonSize + COMMAND_OVERHEAD then Raised(DocumentTooLarge(|cmd.value|))
    else if Abridged(command).None? then Raised(KeyMissing)
    else
      var abridged := EncodeDocument(Abridged(command).value, false);
      if abridged.None? then Raised(NotEncodable)
      else Done(limits.maxMessageSize - (OP_MSG_OVERHEAD + |abridged.value|))
  }

  // ---- the message ----------------------------------------------------------------------

  /** A kind-1 section of the MongoDB Wire Protocol. */
  function Section(identifier: Bytes, documents: Bytes): (r: Bytes)
    requires |identifier| + |documents| + 4 <= MAX_INT32
    ensures |r| == |identifier| + |documents| + 5
  {
    [1] + PackInt32(|identifier| + |documents| + 4) + identifier + documents
  }

  function Body(ack: bool, command: Bytes, ops: Bytes, ns: Bytes): (r: Bytes)
    requires |ops| + 8 <= MAX_INT32 && |ns| + 11 <= MAX_INT32
    ensures |r| == |command| + |ops| + |ns| + 26
  {
    OpMsg.Flags(ack) + [0] + command + Section(OPS, ops) + Section(NS_INFO, ns)
  }

  datatype Batch = Batch(ops: seq<Fields>, namespaces: seq<Bytes>, body: Bytes)

  /** What one call produces. */
  ghost function BatchSpec(command: Fields, operations: seq<Operation>, nss: seq<Bytes>, ack: bool,
                           limits: OpMsg.Limits): (r: Outcome<Batch>)
  {
    var room := Room(command, ack, limits);
    if room.Raised? then Raised(room.failure)
    else
      var n := Select(operations, nss, 0, 0, ack, limits, room.value);
      if n.Raised? then Raised(n.failure)
      else if !Encodable(operations, nss, n.value) then Raised(NotEncodable)
      else
        var ops, ns := OpsBytes(operations, nss, n.value).value, NsBytes(nss, n.value).value;
        if |ops| + 8 > MAX_INT32 || |ns| + 11 > MAX_INT32 then Raised(NotEncodable)
        else Done(Batch(IndexedAll(operations, nss, n.value), FirstUses(nss[..n.value]),
                        Body(ack, EncodeDocument(command, false).value, ops, ns)))
  }

  lemma {:induction false} FlattenNothing()
    ensures Flatten<byte>([]) == []
  {
  }

  method WriteParts(parts: seq<Bytes>, buf: BytesIO)
    requires buf.Valid() && buf.pos == |buf.data|
    modifies buf
    ensures buf.Valid() && buf.pos == |buf.data| && buf.data == old(buf.data) + Flatten(parts)
  {
    hide Overwrite, Flatten;
    FlattenNothing();
    assert parts[..0] == [];
    var i := 0;
    while i < |parts|
      invariant 0 <= i <= |parts| && buf.Valid() && buf.pos == |buf.data|
      invariant buf.data == old(buf.data) + Flatten(parts[..i])
    {
      assert parts[..i + 1] == parts[..i] + [parts[i]];
      FlattenSnoc(parts[..i], parts[i]);
      buf.Write(parts[i]);
      i := i + 1;
    }
    assert parts[..i] == parts;
  }

  lemma {:induction false} PatchedSection(head: Bytes, identifier: Bytes, documents: Bytes)
    requires |identifier| + |documents| + 4 <= MAX_INT32
    ensures Overwrite(head + [1] + [0, 0, 0, 0] + identifier + documents, |head| + 1,
                      PackInt32(|identifier| + |documents| + 4))
            == head + Section(identifier, documents)
  {
    hide PackInt32, Overwrite;
    var size := PackInt32(|identifier| + |documents| + 4);
    OverwriteHole(head + [1], [0, 0, 0, 0], identifier + documents, size);
    assert head + [1] + [0, 0, 0, 0] + identifier + documents == (head + [1]) + [0, 0, 0, 0] + (identifier + documents);
    assert (head + [1]) + size + (identifier + documents) == head + Section(identifier, documents);
  }

  /** One section: its length is left open, the documents are written, the length is patched in. */
  method WriteSection(identifier: Bytes, parts: seq<Bytes>, buf: BytesIO) returns (ok: bool, length: nat)
    requires buf.Valid() && buf.pos == |buf.data|
    modifies buf
    ensures buf.Valid()
    ensures ok <==> |identifier| + |Flatten(parts)| + 4 <= MAX_INT32
    ensures ok ==> buf.data == old(buf.data) + Section(identifier, Flatten(parts)) && length == |buf.data|
  {
    hide PackInt32, Overwrite, Flatten, Section;
    ghost var head := buf.data;
    buf.Write([1]);
    var sizeLocation := buf.pos;
    buf.Write([0, 0, 0, 0]);
    buf.Write(identifier);
    WriteParts(parts, buf);
    length := buf.pos;
    if length - sizeLocation > MAX_INT32 {
      return false, length;
    }
    PatchedSection(head, identifier, Flatten(parts));
    buf.Seek(sizeLocation);
    buf.Write(PackInt32(length - sizeLocation));
    return true, length;
  }

  /** `_client_construct_op_msg`; False stands for the struct.error of a length beyond 32 bits. */
  method ConstructOpMsg(command: Bytes, ops: seq<Bytes>, nss: seq<Bytes>, ack: bool, buf: BytesIO)
    returns (ok: bool, length: nat)
    requires buf.Valid() && buf.pos == |buf.data|
    modifies buf
    ensures buf.Valid()
    ensures ok <==> |Flatten(ops)| + 8 <= MAX_INT32 && |Flatten(nss)| + 11 <= MAX_INT32
    ensures ok ==> buf.data == old(buf.data) + Body(ack, command, Flatten(ops), Flatten(nss)) && length == |buf.data|
  {
    hide PackInt32, Overwrite, Flatten, Section;
    ghost var head := buf.data;
    buf.Write(OpMsg.Flags(ack));
    buf.Write([0]);
    buf.Write(command);
    ok, length := WriteSection(OPS, ops, buf);
    if !ok {
      return;
    }
    buf.Seek(length);
    ok, length := WriteSection(NS_INFO, nss, buf);
    if ok {
      assert buf.data == head + Body(ack, command, Flatten(ops), Flatten(nss));
    }
  }

  /** The dictionary from namespaces to indices mirrors the list of namespaces. */
  ghost predicate Mirrors(nsInfo: map<Bytes, nat>, nss: seq<Bytes>)
  {
    && (forall x :: x in nsInfo <==> x in nss)
    && (forall x :: x in nsInfo ==> x in nss && nsInfo[x] == IndexOf(nss, x))
  }

  lemma {:induction false} MirrorsGrow(nsInfo: map<Bytes, nat>, nss: seq<Bytes>, x: Bytes)
    requires Mirrors(nsInfo, nss) && x !in nss
    ensures Mirrors(nsInfo[x := |nss|], nss + [x])
  {
    var more := nss + [x];
    forall y | y in nsInfo[x := |nss|] ensures y in more && nsInfo[x := |nss|][y] == IndexOf(more, y) {
      if y == x {
        assert more[|nss|] == x;
        assert IndexOf(more, x) == |nss|;
      } else {
        assert more[..|nss|] == nss;
        IndexOfPrefix(more, |nss|, y);
      }
    }
  }

  /** Looking a namespace up, adding it first if it is new, gives the index the batch will have. */
  lemma {:induction false} LookUpIsIndex(operations: seq<Operation>, nss: seq<Bytes>, i: nat, nsInfo: map<Bytes, nat>)
    requires i < Count(operations, nss) && Mirrors(nsInfo, FirstUses(nss[..i]))
    ensures var before := FirstUses(nss[..i]);
            var after := if nss[i] in nsInfo then nsInfo else nsInfo[nss[i] := |before|];
            && (nss[i] in nsInfo <==> nss[i] in before)
            && FirstUses(nss[..i + 1]) == (if nss[i] in nsInfo then before else before + [nss[i]])
            && Mirrors(after, FirstUses(nss[..i + 1])) && nss[i] in after
            && Put(operations[i].doc, OpKey(operations[i].kind), Int(after[nss[i]])) == Indexed(operations, nss, i)
  {
    hide FirstUses, Put, OpKey;
    FirstUsesStep(nss, i);
    if nss[i] !in nsInfo {
      MirrorsGrow(nsInfo, FirstUses(nss[..i]), nss[i]);
    }
  }

  /** The loop of `_client_batched_op_msg_impl`. */
  method SelectBatch(operations: seq<Operation>, nss: seq<Bytes>, ack: bool, limits: OpMsg.Limits, room: int)
    returns (failure: Option<Failure>, toSendOps: seq<Fields>, toSendNs: seq<Bytes>,
             opsEncoded: seq<Bytes>, nsEncoded: seq<Bytes>)
    ensures var spec := Select(operations, nss, 0, 0, ack, limits, room);
            if spec.Raised? then failure == Some(spec.failure)
            else && failure.None? && toSendOps == IndexedAll(operations, nss, spec.value)
                 && toSendNs == FirstUses(nss[..spec.value])
                 && OpsBytes(operations, nss, spec.value) == Some(Flatten(opsEncoded))
                 && NsBytes(nss, spec.value) == Some(Flatten(nsEncoded))
  {
    hide EncodeDocument, FirstUses, PayloadFailure, Flatten, OpsBytes, NsBytes, Put, OpKey, Mirrors, Indexed,
         IndexedAll;
    ghost var spec := Select(operations, nss, 0, 0, ack, limits, room);
    failure, toSendOps, toSendNs, opsEncoded, nsEncoded := None, [], [], [], [];
    var nsInfo: map<Bytes, nat> := map[];
    var totalOps, totalNs := 0, 0;
    var idx := 0;
    NothingYet(operations, nss);
    NothingMirrored();
    while idx < |operations| && idx < |nss|
      invariant idx <= Count(operations, nss)
      invariant toSendOps == IndexedAll(operations, nss, idx) && toSendNs == FirstUses(nss[..idx])
      invariant Mirrors(nsInfo, toSendNs)
      invariant OpsBytes(operations, nss, idx) == Some(Flatten(opsEncoded)) && totalOps == |Flatten(opsEncoded)|
      invariant NsBytes(nss, idx) == Some(Flatten(nsEncoded)) && totalNs == |Flatten(nsEncoded)|
      invariant spec == Select(operations, nss, idx, totalOps + totalNs, ack, limits, room)
    {
      var op, namespace := operations[idx], nss[idx];
      var payload := PayloadFailure(op, ack, limits);
      if payload.Some? {
        return payload, toSendOps, toSendNs, opsEncoded, nsEncoded;
      }
      var isNew := namespace !in nsInfo;
      LookUpIsIndex(operations, nss, idx, nsInfo);
      if isNew {
        nsInfo := nsInfo[namespace := |toSendNs|];
      }
      var opDoc := Put(op.doc, OpKey(op.kind), Int(nsInfo[namespace]));
      var opEncoded := EncodeDocument(opDoc, false);
      var nsDocEncoded := if isNew then EncodeDocument(NsDoc(namespace), false) else Some([]);
      if opEncoded.None? || nsDocEncoded.None? {
        return Some(NotEncodable), toSendOps, toSendNs, opsEncoded, nsEncoded;
      }
      var opLength := |opEncoded.value|;
      if !ack && opLength > limits.maxBsonSize + COMMAND_OVERHEAD {
        return Some(DocumentTooLarge(opLength)), toSendOps, toSendNs, opsEncoded, nsEncoded;
      }
      var newSize := totalOps + totalNs + opLength + |nsDocEncoded.value|;
      if newSize > room {
        if idx == 0 {
          return Some(DocumentTooLarge(opLength)), toSendOps, toSendNs, opsEncoded, nsEncoded;
        }
        return None, toSendOps, toSendNs, opsEncoded, nsEncoded;
      }
      SequencesGrow(operations, nss, idx);
      FlattenSnoc(opsEncoded, opEncoded.value);
      FlattenSnoc(nsEncoded, nsDocEncoded.value);
      toSendOps := toSendOps + [opDoc];
      opsEncoded := opsEncoded + [opEncoded.value];
      totalOps := totalOps + opLength;
      if isNew {
        toSendNs := toSendNs + [namespace];
        nsEncoded := nsEncoded + [nsDocEncoded.value];
        totalNs := totalNs + |nsDocEncoded.value|;
      }
      idx := idx + 1;
      if idx == limits.maxWriteBatchSize {
        return None, toSendOps, toSendNs, opsEncoded, nsEncoded;
      }
    }
  }

  lemma {:induction false} NothingMirrored()
    ensures Mirrors(map[], [])
  {
  }

  lemma {:induction false} NothingYet(operations: seq<Operation>, nss: seq<Bytes>)
    ensures IndexedAll(operations, nss, 0) == [] && nss[..0] == [] && FirstUses(nss[..0]) == []
    ensures OpsBytes(operations, nss, 0) == Some([]) && NsBytes(nss, 0) == Some([]) && Flatten<byte>([]) == []
  {
    assert NsDocs([]) == [];
  }

  /** `_client_batched_op_msg_impl`: appends to `buf`, which holds the message header if there is one. */
  method BatchedOpMsgImpl(command: Fields, operations: seq<Operation>, nss: seq<Bytes>, ack: bool,
                          limits: OpMsg.Limits, buf: BytesIO) returns (r: Outcome<(seq<Fields>, seq<Bytes>, nat)>)
    requires buf.Valid() && buf.pos == |buf.data|
    modifies buf
    ensures buf.Valid()
    ensures var spec := BatchSpec(command, operations, nss, ack, limits);
            if spec.Raised? then r == Raised(spec.failure)
            else && buf.data == old(buf.data) + spec.value.body
                 && r == Done((spec.value.ops, spec.value.namespaces, |buf.data|))
  {
    hide EncodeDocument, Abridged, Select, FirstUses, IndexedAll, OpsBytes, NsBytes, Flatten;
    var cmd := EncodeDocument(command, false);
    if cmd.None? {
      return Raised(NotEncodable);
    }
    if !ack && |cmd.value| > limits.maxBsonSize + COMMAND_OVERHEAD {
      return Raised(DocumentTooLarge(|cmd.value|));
    }
    var abridged := Abridged(command);
    if abridged.None? {
      return Raised(KeyMissing);
    }
    var abridgedBytes := EncodeDocument(abridged.value, false);
    if abridgedBytes.None? {
      return Raised(NotEncodable);
    }
    var room := limits.maxMessageSize - (OP_MSG_OVERHEAD + |abridgedBytes.value|);
    var failure, ops, namespaces, opsEncoded, nsEncoded := SelectBatch(operations, nss, ack, limits, room);
    if failure.Some? {
      return Raised(failure.value);
    }
    var ok, length := ConstructOpMsg(cmd.value, opsEncoded, nsEncoded, ack, buf);
    if !ok {
      return Raised(NotEncodable);
    }
    return Done((ops, namespaces, length));
  }

  /** `_client_batched_op_msg`; the random request id is a parameter. */
  method BatchedOpMsg(command: Fields, operations: seq<Operation>, nss: seq<Bytes>, ack: bool,
                      limits: OpMsg.Limits, requestId: int) returns (r: Outcome<(Bytes, seq<Fields>, seq<Bytes>)>)
    requires IsInt32(requestId)
    ensures var spec := BatchSpec(command, operations, nss, ack, limits);
            if spec.Raised? then r == Raised(spec.failure)
            else if |spec.value.body| + 16 > MAX_INT32 then r == Raised(NotEncodable)
            else r == Done((OpMsg.Message(requestId, spec.value.body), spec.value.ops, spec.value.namespaces))
  {
    hide BatchSpec, Overwrite, PackInt32;
    var buf := new BytesIO();
    buf.Write([0, 0, 0, 0, 0, 0, 0, 0]);
    buf.Write(OpMsg.RESPONSE_TO_AND_OPCODE);
    ghost var header := buf.data;
    var impl := BatchedOpMsgImpl(command, operations, nss, ack, limits, buf);
    if impl.Raised? {
      return Raised(impl.failure);
    }
    ghost var body := BatchSpec(command, operations, nss, ack, limits).value.body;
    var (toSendOps, toSendNs, length) := impl.value;
    if length > MAX_INT32 {
      return Raised(NotEncodable);
    }
    OpMsg.PatchedHeader(PackInt32(requestId), PackInt32(length), body);
    assert header == [0, 0, 0, 0, 0, 0, 0, 0] + OpMsg.RESPONSE_TO_AND_OPCODE;
    buf.Seek(4);
    buf.Write(PackInt32(requestId));
    buf.Seek(0);
    buf.Write(PackInt32(length));
    return Done((buf.data, toSendOps, toSendNs));
  }

  // ---- what a batch guarantees ----------------------------------------------------------

  /** By how many bytes the command exceeds the fields that were counted for it. */
  ghost function Excess(command: Fields): (r: int)
    requires EncodeDocument(command, false).Some?
    requires Abridged(command).Some? && EncodeDocument(Abridged(command).value, false).Some?
  {
    |EncodeDocument(command, false).value| - |EncodeDocument(Abridged(command).value, false).value|
  }

  /** Every batch that is not refused is a maximal non-empty prefix whose namespace list is
      duplicate-free and names the namespaces used; the finished message keeps to the limit
      exactly if the batch leaves room for what the command exceeds its counted fields by beyond
      958 bytes, the reserve of 1000 less 42 bytes of framing, so always up to 958. */
  lemma {:induction false} BatchKeepsItsPromises(command: Fields, operations: seq<Operation>, nss: seq<Bytes>,
                                                 ack: bool, limits: OpMsg.Limits)
    requires limits.maxWriteBatchSize >= 1 && Count(operations, nss) > 0
    requires BatchSpec(command, operations, nss, ack, limits).Done?
    ensures var batch := BatchSpec(command, operations, nss, ack, limits).value;
            var n := |batch.ops|;
            var room := Room(command, ack, limits).value;
            && MaximalBatch(operations, nss, n, limits, room)
            && batch.ops == IndexedAll(operations, nss, n) && batch.namespaces == FirstUses(nss[..n])
            && NoDuplicates(batch.namespaces) && (forall x :: x in batch.namespaces <==> x in nss[..n])
            && |batch.body| + 16 == Total(operations, nss, n) + |EncodeDocument(command, false).value| + 42
            && (|batch.body| + 16 <= limits.maxMessageSize
                <==> Total(operations, nss, n) <= room + 958 - Excess(command))
            && (Excess(command) <= 958 ==> |batch.body| + 16 <= limits.maxMessageSize)
  {
    hide EncodeDocument, Abridged, Select, FirstUses, OpsBytes, NsBytes, Indexed;
    var room := Room(command, ack, limits).value;
    NothingYet(operations, nss);
    SelectIsMaximal(operations, nss, 0, ack, limits, room);
    var n := Select(operations, nss, 0, 0, ack, limits, room).value;
    FirstUsesAreDistinct(nss[..n]);
  }

  /** Both sections read back: the operations with their indices, then the namespaces. */
  lemma {:induction false} BatchReadsBack(command: Fields, operations: seq<Operation>, nss: seq<Bytes>, ack: bool,
                                          limits: OpMsg.Limits)
    returns (end: nat)
    requires BatchSpec(command, operations, nss, ack, limits).Done?
    requires var batch := BatchSpec(command, operations, nss, ack, limits).value;
             Streams.Faithful(batch.ops) && Streams.Faithful(NsDocs(batch.namespaces))
    ensures var batch := BatchSpec(command, operations, nss, ack, limits).value;
            var opsAt := |EncodeDocument(command, false).value| + 14;
            && opsAt <= end <= |batch.body| - 12
            && Streams.DecodeAllSpec(batch.body[opsAt..end], 0, []) == Some(Streams.ReadBackDocs(batch.ops))
            && Streams.DecodeAllSpec(batch.body[end + 12..], 0, [])
               == Some(Streams.ReadBackDocs(NsDocs(batch.namespaces)))
  {
    hide EncodeDocument, Select, Streams.EncodeStream, Streams.DecodeAllSpec, Streams.ReadBackDocs, Abridged, PackInt32,
         FirstUses, IndexedAll, Streams.Faithful, NsDocs;
    var batch := BatchSpec(command, operations, nss, ack, limits).value;
    var n := Select(operations, nss, 0, 0, ack, limits, Room(command, ack, limits).value).value;
    var ops, ns := OpsBytes(operations, nss, n).value, NsBytes(nss, n).value;
    var opsAt := |EncodeDocument(command, false).value| + 14;
    end := opsAt + |ops|;
    assert batch.body[opsAt..end] == ops;
    assert batch.body[end + 12..] == ns;
    StreamDecodes(batch.ops, ops);
    StreamDecodes(NsDocs(batch.namespaces), ns);
  }

  lemma {:induction false} StreamDecodes(docs: seq<Fields>, stream: Bytes)
    requires Streams.Faithful(docs) && Streams.EncodeStream(docs) == Some(stream)
    ensures Streams.DecodeAllSpec(stream, 0, []) == Some(Streams.ReadBackDocs(docs))
  {
    hide Streams.EncodeStream, Streams.DecodeAllSpec, Streams.ReadBackDocs, Streams.Faithful;
    assert stream[0..] == stream;
    Streams.DecodeAllReturnsTheList(docs, stream, 0, []);
    assert [] + Streams.ReadBackDocs(docs) == Streams.ReadBackDocs(docs);
  }
}
