/**
 The decoder against the grammar, both ways: bytes that derive from a well-formed tree decode to
 the tree's meaning, and whatever the decoder accepts derives from a well-formed tree.
 */
module Parsing {
  import opened Bytes
  import opened Bson
  import opened Grammar
  import opened Decoder

  /** A read that succeeds with `m`, if `m` is a value, and ends at `pos`. */
  function Reads(m: Option<Value>, pos: nat): (r: Read<Value>)
  {
    if m.None? then None else Some((m.value, pos))
  }

  // ---- derivable bytes decode to their meaning ------------------------------------------

  lemma {:induction false} UnpackLe(data: Bytes, pos: nat, n: nat)
    requires Has(data, pos, Le(n, 4)) && n <= MAX_INT32
    ensures UnpackIntFrom(data, pos) == Some(n)
  {
    Int32RoundTrip(n);
  }

  lemma {:induction false} StringComplete(s: Bytes, data: Bytes, pos: nat, objEnd: int)
    requires TextOk(s)
    requires Has(data, pos, StringBytes(s)) && pos + |StringBytes(s)| <= objEnd
    ensures GetString(data, pos, objEnd) == Some((s, pos + |StringBytes(s)|))
  {
    HasSplit(data, pos, Le(|s| + 1, 4) + s, [0]);
    HasSplit(data, pos, Le(|s| + 1, 4), s);
    UnpackLe(data, pos, |s| + 1);
  }

  lemma {:induction false} CStringComplete(s: Bytes, data: Bytes, pos: nat)
    requires NoNul(s) && ValidUtf8(s)
    requires Has(data, pos, s + [0])
    ensures GetCString(data, pos) == Some((s, pos + |s| + 1))
  {
    IndexOfNulAt(data, pos, s);
    HasSplit(data, pos, s, [0]);
  }

  lemma {:induction false} BinaryComplete(subtype: byte, payload: Bytes, data: Bytes, pos: nat, objEnd: int)
    requires |payload| + (if subtype == 2 then 4 else 0) <= MAX_INT32
    requires Has(data, pos, BinaryBytes(subtype, payload))
    requires pos + |BinaryBytes(subtype, payload)| <= objEnd <= |data|
    ensures GetBinary(data, pos, objEnd)
            == Some((if subtype == 0 then RawBytes(payload) else Binary(payload, subtype),
                     pos + |BinaryBytes(subtype, payload)|))
  {
    if subtype == 2 {
      HasSplit(data, pos, Le(|payload| + 4, 4) + [2] + Le(|payload|, 4), payload);
      HasSplit(data, pos, Le(|payload| + 4, 4) + [2], Le(|payload|, 4));
      HasSplit(data, pos, Le(|payload| + 4, 4), [2]);
      UnpackLe(data, pos, |payload| + 4);
      UnpackLe(data, pos + 5, |payload|);
    } else {
      HasSplit(data, pos, Le(|payload|, 4) + [subtype], payload);
      HasSplit(data, pos, Le(|payload|, 4), [subtype]);
      UnpackLe(data, pos, |payload|);
    }
  }

  lemma {:induction false} ContainerComplete(body: Bytes, data: Bytes, pos: nat)
    requires |body| + 5 <= MAX_INT32
    requires Has(data, pos, Container(body))
    ensures UnpackIntFrom(data, pos) == Some(|body| + 5)
    ensures At(data, pos + |body| + 4) == Some(0)
    ensures Has(data, pos + 4, body)
  {
    HasSplit(data, pos, Le(|body| + 5, 4) + body, [0]);
    HasSplit(data, pos, Le(|body| + 5, 4), body);
    UnpackLe(data, pos, |body| + 5);
  }

  lemma {:induction false} ObjectComplete(es: Elements, data: Bytes, pos: nat, objEnd: int)
    requires WellFormedAll(es, true) && |Yield(es)| + 5 <= MAX_INT32
    requires Has(data, pos, Container(Yield(es)))
    requires pos + |Container(Yield(es))| <= objEnd
    requires pos == 0 ==> |Container(Yield(es))| == objEnd
    decreases es, 1
    ensures GetObjectSize(data, pos, objEnd) == Some((|Yield(es)| + 5, pos + |Yield(es)| + 4))
    ensures ElementsSpec(data, pos + 4, pos + |Yield(es)| + 4, []) == Fold(es, [])
    ensures GetObject(data, pos, objEnd)
            == Reads(RecogniseAll(Fold(es, [])), pos + |Container(Yield(es))|)
  {
    hide ElementToDict, Container, Recognise, ValidUtf8;
    ContainerComplete(Yield(es), data, pos);
    ElementsComplete(es, data, pos + 4, pos + |Yield(es)| + 4, []);
  }

  lemma {:induction false} CodeComplete(s: Bytes, es: Elements, data: Bytes, pos: nat)
    requires WellFormed(NCodeWithScope(s, es))
    requires Has(data, pos, Payload(NCodeWithScope(s, es)))
    decreases es, 2
    ensures GetCodeWithScope(data, pos)
            == Reads(Meaning(NCodeWithScope(s, es)), pos + |Payload(NCodeWithScope(s, es))|)
  {
    hide ValidUtf8, GetString, GetObjectSize, ElementsSpec, GetObject, StringBytes, Container, Recognise;
    var code := StringBytes(s) + Container(Yield(es));
    HasSplit(data, pos, Le(|code| + 4, 4), code);
    UnpackLe(data, pos, |code| + 4);
    HasSplit(data, pos + 4, StringBytes(s), Container(Yield(es)));
    var codeEnd := pos + 4 + |code|;
    StringComplete(s, data, pos + 4, codeEnd);
    ObjectComplete(es, data, pos + 4 + |StringBytes(s)|, codeEnd);
  }

  lemma {:induction false} ArrayComplete(es: Elements, data: Bytes, pos: nat, objEnd: int)
    requires WellFormedAll(es, false) && |Yield(es)| + 5 <= MAX_INT32
    requires Has(data, pos, Container(Yield(es)))
    requires pos + |Container(Yield(es))| <= objEnd <= |data|
    decreases es, 1
    ensures GetArraySpec(data, pos, objEnd)
            == Reads(Meaning(NArray(es)), pos + |Container(Yield(es))|)
  {
    hide ArrayElement, Container;
    ContainerComplete(Yield(es), data, pos);
    ItemsComplete(es, data, pos + 4, pos + |Yield(es)| + 3, objEnd, []);
  }

  ghost predicate IsNested(n: Node) { n.NDocument? || n.NArray? || n.NCodeWithScope? }

  ghost predicate IsSized(n: Node)
  {
    n.NString? || n.NBinary? || n.NRegex? || n.NDBPointer? || n.NCode? || n.NSymbol?
  }

  lemma {:induction false} FixedComplete(n: Node, data: Bytes, pos: nat)
    requires !IsNested(n) && !IsSized(n)
    requires Has(data, pos, Payload(n))
    ensures GetFixed(TypeCode(n), data, pos) == Reads(Meaning(n), pos + |Payload(n)|)
  {
    match n
    case NDatetime(ms) => Int64RoundTrip(ms);
    case NInt32(i) => Int32RoundTrip(i);
    case NTimestamp(inc, time) =>
      HasSplit(data, pos, Le(inc, 4), Le(time, 4));
      Uint32RoundTrip(inc);
      Uint32RoundTrip(time);
    case NInt64(l) => Int64RoundTrip(l);
    case _ =>
  }

  lemma {:induction false} RegexComplete(pattern: Bytes, options: Bytes, data: Bytes, pos: nat)
    requires WellFormed(NRegex(pattern, options))
    requires Has(data, pos, pattern + [0] + (options + [0]))
    ensures GetRegex(data, pos)
            == Some((Regex(pattern, FlagsOfLetters(options)), pos + |pattern| + |options| + 2))
  {
    hide ValidUtf8, Utf8Head, FlagsOfLetters, GetCString;
    HasSplit(data, pos, pattern + [0], options + [0]);
    CStringComplete(pattern, data, pos);
    CStringComplete(options, data, pos + |pattern| + 1);
  }

  lemma {:induction false} DBPointerComplete(s: Bytes, oid: Word12, data: Bytes, pos: nat, objEnd: int)
    requires TextOk(s)
    requires Has(data, pos, StringBytes(s) + oid) && pos + |StringBytes(s)| <= objEnd
    ensures GetDBPointer(data, pos, objEnd)
            == Some((DBRef(Text(s), ObjectId(oid), Null, []), pos + |StringBytes(s)| + 12))
  {
    hide ValidUtf8, Utf8Head, GetString;
    HasSplit(data, pos, StringBytes(s), oid);
    StringComplete(s, data, pos, objEnd);
  }

  lemma {:induction false} ScalarComplete(n: Node, data: Bytes, pos: nat, objEnd: int)
    requires WellFormed(n) && !IsNested(n)
    requires Has(data, pos, Payload(n)) && pos + |Payload(n)| <= objEnd <= |data|
    ensures GetScalar(TypeCode(n), data, pos, objEnd) == Reads(Meaning(n), pos + |Payload(n)|)
  {
    hide ValidUtf8, GetString, GetBinary, GetRegex, GetDBPointer, GetFixed, FlagsOfLetters;
    match n
    case NString(s) => StringComplete(s, data, pos, objEnd);
    case NBinary(subtype, payload) => BinaryComplete(subtype, payload, data, pos, objEnd);
    case NRegex(pattern, options) => RegexComplete(pattern, options, data, pos);
    case NDBPointer(s, oid) => DBPointerComplete(s, oid, data, pos, objEnd);
    case NCode(s) => StringComplete(s, data, pos, objEnd);
    case NSymbol(s) => StringComplete(s, data, pos, objEnd);
    case _ => FixedComplete(n, data, pos);
  }

  /** Completeness of one getter, for every node of any depth. */
  lemma {:induction false} ValueComplete(n: Node, data: Bytes, pos: nat, objEnd: int)
    requires WellFormed(n)
    requires pos > 0
    requires Has(data, pos, Payload(n)) && pos + |Payload(n)| <= objEnd <= |data|
    decreases n
    ensures GetValue(TypeCode(n), data, pos, objEnd) == Reads(Meaning(n), pos + |Payload(n)|)
  {
    hide GetScalar, Container, Has, ValidUtf8, PackInt32, PackInt64, Le, Fold, Items, Yield, WellFormedAll, Recognise;
    match n
    case NDocument(es) => ObjectComplete(es, data, pos, objEnd);
    case NArray(es) => ArrayComplete(es, data, pos, objEnd);
    case NCodeWithScope(s, es) => CodeComplete(s, es, data, pos);
    case _ => ScalarComplete(n, data, pos, objEnd);
  }

  lemma {:induction false} SplitElement(e: Element, rest: Bytes, data: Bytes, pos: nat)
    requires Has(data, pos, YieldOne(e) + rest)
    ensures pos < |data| && data[pos] == TypeCode(e.node)
    ensures Has(data, pos, [TypeCode(e.node)] + e.name + [0])
    ensures Has(data, pos + 1, e.name + [0])
    ensures Has(data, pos + |e.name| + 2, Payload(e.node))
    ensures |YieldOne(e)| == |e.name| + 2 + |Payload(e.node)|
    ensures Has(data, pos + |YieldOne(e)|, rest)
  {
    HasSplit(data, pos, YieldOne(e), rest);
    HasSplit(data, pos, [TypeCode(e.node)] + (e.name + [0]), Payload(e.node));
    HasSplit(data, pos, [TypeCode(e.node)], e.name + [0]);
    assert [TypeCode(e.node)] + (e.name + [0]) == [TypeCode(e.node)] + e.name + [0];
  }

  lemma {:induction false} ElementsComplete(es: Elements, data: Bytes, pos: nat, objEnd: int, acc: Fields)
    requires WellFormedAll(es, true)
    requires Has(data, pos, Yield(es)) && pos + |Yield(es)| == objEnd < |data|
    decreases es, 0
    ensures ElementsSpec(data, pos, objEnd, acc) == Fold(es, acc)
  {
    hide ValidUtf8, GetValue, GetCString, YieldOne, Put;
    if es != [] {
      var e := es[0];
      SplitElement(e, Yield(es[1..]), data, pos);
      CStringComplete(e.name, data, pos + 1);
      ValueComplete(e.node, data, pos + |e.name| + 2, objEnd);
      var v := Meaning(e.node);
      if v.Some? {
        assert ElementToDict(data, pos, objEnd) == Some((e.name, v.value, pos + |YieldOne(e)|));
        ElementsComplete(es[1..], data, pos + |YieldOne(e)|, objEnd, Put(acc, e.name, v.value));
      }
    }
  }

  lemma {:induction false} ItemsComplete(es: Elements, data: Bytes, pos: nat, end: int, objEnd: int, acc: seq<Value>)
    requires WellFormedAll(es, false)
    requires Has(data, pos, Yield(es)) && pos + |Yield(es)| == end + 1 < |data|
    requires end + 1 <= objEnd <= |data|
    decreases es, 0
    ensures var items := Items(es, acc);
            ArrayItemsSpec(data, pos, end, objEnd, acc)
            == Reads(if items.None? then None else Some(List(items.value)), (end + 2) as nat)
  {
    hide ValidUtf8, GetValue, YieldOne;
    if es != [] {
      var e := es[0];
      SplitElement(e, Yield(es[1..]), data, pos);
      hide Has;
      assert NoNul([TypeCode(e.node)] + e.name);
      IndexOfNulAt(data, pos, [TypeCode(e.node)] + e.name);
      ValueComplete(e.node, data, pos + |e.name| + 2, objEnd);
      var v := Meaning(e.node);
      if v.Some? {
        assert ArrayElement(data, pos, objEnd) == Some((v.value, pos + |YieldOne(e)|));
        ItemsComplete(es[1..], data, pos + |YieldOne(e)|, end, objEnd, acc + [v.value]);
      }
    }
  }

  // ---- accepted bytes derive from a tree ------------------------------------------------

  /** `n` derives the bytes of `data` read as `v` from `pos` up to `end`. */
  ghost predicate Derives(n: Node, data: Bytes, pos: nat, v: Value, end: nat)
  {
    && WellFormed(n)
    && Has(data, pos, Payload(n)) && end == pos + |Payload(n)|
    && Meaning(n) == Some(v)
  }

  lemma {:induction false} UnpackSound(data: Bytes, pos: nat)
    requires UnpackIntFrom(data, pos).Some? && UnpackIntFrom(data, pos).value >= 0
    ensures Has(data, pos, Le(UnpackIntFrom(data, pos).value, 4))
  {
    UnpackInt32RoundTrip(data[pos..pos + 4]);
  }

  lemma {:induction false} StringSound(data: Bytes, pos: nat, objEnd: int) returns (s: Bytes)
    requires GetString(data, pos, objEnd).Some?
    ensures TextOk(s) && Has(data, pos, StringBytes(s))
    ensures GetString(data, pos, objEnd) == Some((s, pos + |StringBytes(s)|))
  {
    hide ValidUtf8;
    s := GetString(data, pos, objEnd).value.0;
    UnpackSound(data, pos);
    HasJoin(data, pos, Le(|s| + 1, 4), s);
    HasJoin(data, pos, Le(|s| + 1, 4) + s, [0]);
  }

  lemma {:induction false} CStringSound(data: Bytes, pos: nat) returns (s: Bytes)
    requires GetCString(data, pos).Some?
    ensures NoNul(s) && ValidUtf8(s) && Has(data, pos, s + [0])
    ensures GetCString(data, pos) == Some((s, pos + |s| + 1))
  {
    hide ValidUtf8;
    s := GetCString(data, pos).value.0;
    HasJoin(data, pos, s, [0]);
  }

  lemma {:induction false} BinarySound(data: Bytes, pos: nat, objEnd: int) returns (n: Node)
    requires objEnd <= |data|
    requires GetBinary(data, pos, objEnd).Some?
    ensures n.NBinary?
    ensures Derives(n, data, pos, GetBinary(data, pos, objEnd).value.0, GetBinary(data, pos, objEnd).value.1)
  {
    var r := GetBinary(data, pos, objEnd).value;
    var subtype := data[pos + 4];
    var payload := r.0.data;
    n := NBinary(subtype, payload);
    UnpackSound(data, pos);
    if subtype == 2 {
      UnpackSound(data, pos + 5);
      HasJoin(data, pos, Le(|payload| + 4, 4), [2]);
      HasJoin(data, pos, Le(|payload| + 4, 4) + [2], Le(|payload|, 4));
      HasJoin(data, pos, Le(|payload| + 4, 4) + [2] + Le(|payload|, 4), payload);
    } else {
      HasJoin(data, pos, Le(|payload|, 4), [subtype]);
      HasJoin(data, pos, Le(|payload|, 4) + [subtype], payload);
    }
  }

  lemma {:induction false} FixedSound(t: byte, data: Bytes, pos: nat) returns (n: Node)
    requires pos <= |data| && GetFixed(t, data, pos).Some?
    ensures TypeCode(n) == t && !IsNested(n)
    ensures Derives(n, data, pos, GetFixed(t, data, pos).value.0, GetFixed(t, data, pos).value.1)
  {
    match t
    case 0x01 => n := NDouble(data[pos..pos + 8]);
    case 0x06 => n := NUndefined;
    case 0x07 => n := NObjectId(data[pos..pos + 12]);
    case 0x08 => n := NBoolean(data[pos] == 1);
    case 0x09 =>
      UnpackInt64RoundTrip(data[pos..pos + 8]);
      n := NDatetime(UnpackInt64(data[pos..pos + 8]));
    case 0x0a => n := NNull;
    case 0x10 =>
      UnpackInt32RoundTrip(data[pos..pos + 4]);
      n := NInt32(UnpackInt32(data[pos..pos + 4]));
    case 0x11 =>
      var inc, time := data[pos..pos + 4], data[pos + 4..pos + 8];
      UnpackUint32RoundTrip(inc);
      UnpackUint32RoundTrip(time);
      HasJoin(data, pos, inc, time);
      n := NTimestamp(FromLe(inc), FromLe(time));
    case 0x12 =>
      UnpackInt64RoundTrip(data[pos..pos + 8]);
      n := NInt64(UnpackInt64(data[pos..pos + 8]));
    case 0x13 => n := NDecimal128(data[pos..pos + 16]);
    case 0xff => n := NMinKey;
    case 0x7f => n := NMaxKey;
    case _ =>
  }

  lemma {:induction false} RegexSound(data: Bytes, pos: nat) returns (n: Node)
    requires GetRegex(data, pos).Some?
    ensures n.NRegex?
    ensures Derives(n, data, pos, GetRegex(data, pos).value.0, GetRegex(data, pos).value.1)
  {
    hide ValidUtf8, FlagsOfLetters, GetCString;
    var pattern := CStringSound(data, pos);
    var options := CStringSound(data, pos + |pattern| + 1);
    HasJoin(data, pos, pattern + [0], options + [0]);
    n := NRegex(pattern, options);
  }

  lemma {:induction false} DBPointerSound(data: Bytes, pos: nat, objEnd: int) returns (n: Node)
    requires GetDBPointer(data, pos, objEnd).Some?
    ensures n.NDBPointer?
    ensures Derives(n, data, pos, GetDBPointer(data, pos, objEnd).value.0, GetDBPointer(data, pos, objEnd).value.1)
  {
    hide ValidUtf8, GetString;
    var s := StringSound(data, pos, objEnd);
    var at := pos + |StringBytes(s)|;
    HasJoin(data, pos, StringBytes(s), data[at..at + 12]);
    n := NDBPointer(s, data[at..at + 12]);
  }

  lemma {:induction false} ScalarSound(t: byte, data: Bytes, pos: nat, objEnd: int) returns (n: Node)
    requires pos <= |data| && objEnd <= |data| && GetScalar(t, data, pos, objEnd).Some?
    ensures TypeCode(n) == t
    ensures var r := GetScalar(t, data, pos, objEnd).value; Derives(n, data, pos, r.0, r.1)
  {
    hide ValidUtf8, GetString, GetBinary, GetRegex, GetDBPointer, GetFixed, Has, StringBytes;
    match t {
      case 0x02 =>
        var s := StringSound(data, pos, objEnd);
        n := NString(s);
      case 0x05 => n := BinarySound(data, pos, objEnd);
      case 0x0b => n := RegexSound(data, pos);
      case 0x0c => n := DBPointerSound(data, pos, objEnd);
      case 0x0d =>
        var s := StringSound(data, pos, objEnd);
        n := NCode(s);
      case 0x0e =>
        var s := StringSound(data, pos, objEnd);
        n := NSymbol(s);
      case _ => n := FixedSound(t, data, pos);
    }
  }

  lemma {:induction false} ContainerSound(data: Bytes, pos: nat, body: Bytes)
    requires UnpackIntFrom(data, pos) == Some(|body| + 5)
    requires Has(data, pos + 4, body) && At(data, pos + |body| + 4) == Some(0)
    ensures Has(data, pos, Container(body)) && |body| + 5 <= MAX_INT32
  {
    UnpackSound(data, pos);
    HasJoin(data, pos, Le(|body| + 5, 4), body);
    HasJoin(data, pos, Le(|body| + 5, 4) + body, [0]);
  }

  lemma {:induction false} ObjectSound(data: Bytes, pos: nat, objEnd: int) returns (es: Elements)
    requires pos <= |data| && GetObject(data, pos, objEnd).Some?
    decreases |data| - pos, 3
    ensures WellFormed(NDocument(es))
    ensures Has(data, pos, Container(Yield(es)))
    ensures var r := GetObject(data, pos, objEnd).value;
            RecogniseAll(Fold(es, [])) == Some(r.0) && r.1 == pos + |Container(Yield(es))|
  {
    hide Has, Recognise, Container;
    var end := GetObjectSize(data, pos, objEnd).value.1;
    es := ElementsSound(data, pos + 4, end, []);
    ContainerSound(data, pos, Yield(es));
  }

  lemma {:induction false} ArraySound(data: Bytes, pos: nat, objEnd: int) returns (es: Elements)
    requires pos <= |data| && objEnd <= |data| && GetArraySpec(data, pos, objEnd).Some?
    decreases |data| - pos, 3
    ensures var r := GetArraySpec(data, pos, objEnd).value; Derives(NArray(es), data, pos, r.0, r.1)
  {
    hide Has, Container;
    var end := pos + UnpackIntFrom(data, pos).value - 1;
    es := ItemsSound(data, pos + 4, end - 1, objEnd, []);
    ContainerSound(data, pos, Yield(es));
  }

  lemma {:induction false} CodeSound(data: Bytes, pos: nat) returns (n: Node)
    requires pos <= |data| && GetCodeWithScope(data, pos).Some?
    decreases |data| - pos, 3
    ensures n.NCodeWithScope?
    ensures var r := GetCodeWithScope(data, pos).value; Derives(n, data, pos, r.0, r.1)
  {
    hide Has, ValidUtf8, StringBytes, Container, GetString, GetObject, Recognise;
    var length := UnpackIntFrom(data, pos).value;
    var s := StringSound(data, pos + 4, pos + length);
    var es := ObjectSound(data, pos + 4 + |StringBytes(s)|, pos + length);
    n := NCodeWithScope(s, es);
    UnpackSound(data, pos);
    HasJoin(data, pos + 4, StringBytes(s), Container(Yield(es)));
    HasJoin(data, pos, Le(length, 4), StringBytes(s) + Container(Yield(es)));
  }

  /** Soundness of one getter: no bound on depth, no assumption on where `objEnd` lies. */
  lemma {:induction false} ValueSound(t: byte, data: Bytes, pos: nat, objEnd: int) returns (n: Node)
    requires pos <= |data| && objEnd <= |data| && GetValue(t, data, pos, objEnd).Some?
    decreases |data| - pos, 4
    ensures TypeCode(n) == t
    ensures var r := GetValue(t, data, pos, objEnd).value; Derives(n, data, pos, r.0, r.1)
  {
    hide GetScalar, Has, GetArraySpec, GetCodeWithScope, GetObject, Container;
    match t {
      case 0x03 =>
        var es := ObjectSound(data, pos, objEnd);
        n := NDocument(es);
      case 0x04 =>
        var es := ArraySound(data, pos, objEnd);
        n := NArray(es);
      case 0x0f => n := CodeSound(data, pos);
      case _ => n := ScalarSound(t, data, pos, objEnd);
    }
  }

  lemma {:induction false} JoinElement(e: Element, rest: Bytes, data: Bytes, pos: nat)
    requires pos < |data| && data[pos] == TypeCode(e.node)
    requires Has(data, pos + 1, e.name + [0])
    requires Has(data, pos + |e.name| + 2, Payload(e.node))
    requires Has(data, pos + |e.name| + 2 + |Payload(e.node)|, rest)
    ensures |YieldOne(e)| == |e.name| + 2 + |Payload(e.node)|
    ensures Has(data, pos, YieldOne(e) + rest)
  {
    HasJoin(data, pos, [TypeCode(e.node)], e.name + [0]);
    HasJoin(data, pos, [TypeCode(e.node)] + (e.name + [0]), Payload(e.node));
    HasJoin(data, pos, YieldOne(e), rest);
  }

  lemma {:induction false} ElementsSound(data: Bytes, pos: nat, objEnd: int, acc: Fields) returns (es: Elements)
    requires pos <= |data| && objEnd < |data| && ElementsSpec(data, pos, objEnd, acc).Some?
    decreases |data| - pos, 1
    ensures WellFormedAll(es, true)
    ensures Has(data, pos, Yield(es)) && pos + |Yield(es)| == objEnd
    ensures Fold(es, acc) == ElementsSpec(data, pos, objEnd, acc)
  {
    if pos < objEnd - 1 {
      hide ElementToDict, YieldOne, Put, Has, ValidUtf8, Payload;
      var r := ElementToDict(data, pos, objEnd).value;
      var e := ElementSound(data, pos, objEnd);
      var rest := ElementsSound(data, r.2, objEnd, Put(acc, r.0, r.1));
      es := [e] + rest;
      assert es[1..] == rest;
      JoinElement(e, Yield(rest), data, pos);
    } else {
      es := [];
    }
  }

  lemma {:induction false} ElementSound(data: Bytes, pos: nat, objEnd: int) returns (e: Element)
    requires pos < |data| && objEnd <= |data| && ElementToDict(data, pos, objEnd).Some?
    decreases |data| - pos, 0
    ensures NoNul(e.name) && ValidUtf8(e.name)
    ensures Has(data, pos + 1, e.name + [0]) && data[pos] == TypeCode(e.node)
    ensures var r := ElementToDict(data, pos, objEnd).value;
            e.name == r.0 && Derives(e.node, data, pos + |e.name| + 2, r.1, r.2)
  {
    hide GetValue, GetCString, ValidUtf8, Has;
    var name := CStringSound(data, pos + 1);
    var n := ValueSound(data[pos], data, pos + |name| + 2, objEnd);
    e := Element(name, n);
  }

  lemma {:induction false} ItemsSound(data: Bytes, pos: nat, end: int, objEnd: int, acc: seq<Value>)
    returns (es: Elements)
    requires pos <= |data| && objEnd <= |data| && end + 1 < |data|
    requires ArrayItemsSpec(data, pos, end, objEnd, acc).Some?
    decreases |data| - pos, 1
    ensures WellFormedAll(es, false)
    ensures Has(data, pos, Yield(es)) && pos + |Yield(es)| == end + 1
    ensures Items(es, acc).Some?
    ensures ArrayItemsSpec(data, pos, end, objEnd, acc) == Some((List(Items(es, acc).value), (end + 2) as nat))
  {
    if pos < end {
      hide ValidUtf8, ArrayElement, YieldOne, Has, Payload;
      var r := ArrayElement(data, pos, objEnd).value;
      var name, n := ItemSound(data, pos, objEnd);
      var rest := ItemsSound(data, r.1, end, objEnd, acc + [r.0]);
      var e := Element(name, n);
      es := [e] + rest;
      assert es[1..] == rest;
      JoinElement(e, Yield(rest), data, pos);
    } else {
      es := [];
    }
  }

  lemma {:induction false} ItemSound(data: Bytes, pos: nat, objEnd: int) returns (name: Bytes, n: Node)
    requires pos < |data| && objEnd <= |data| && ArrayElement(data, pos, objEnd).Some?
    decreases |data| - pos, 0
    ensures NoNul(name) && Has(data, pos + 1, name + [0]) && data[pos] == TypeCode(n)
    ensures var r := ArrayElement(data, pos, objEnd).value;
            Derives(n, data, pos + |name| + 2, r.0, r.1)
  {
    hide GetValue;
    var nul := IndexOfNul(data, pos).value;
    n := ValueSound(data[pos], data, nul + 1, objEnd);
    assert nul != pos;
    name := data[pos + 1..nul];
    assert data[pos..nul] == [data[pos]] + name;
    HasJoin(data, pos + 1, name, [0]);
  }

  // ---- the two directions together ------------------------------------------------------

  /** `es` derives `data` as a document. */
  ghost predicate DocumentTree(es: Elements, data: Bytes)
  {
    WellFormed(NDocument(es)) && Payload(NDocument(es)) == data
  }

  /** Acceptance soundness: accepted bytes are a document of the grammar, and mean what was returned. */
  lemma {:induction false} AcceptedIsDerivable(data: Bytes) returns (es: Elements)
    requires BsonToDict(data).Some?
    ensures DocumentTree(es, data)
    ensures Fold(es, []) == BsonToDict(data)
  {
    hide Container;
    var end := GetObjectSize(data, 0, |data|).value.1;
    es := ElementsSound(data, 4, end, []);
    ContainerSound(data, 0, Yield(es));
    assert data[0..|data|] == data;
  }

  /** Completeness: every document of the grammar is decoded to its meaning. */
  lemma {:induction false} DerivableIsDecoded(es: Elements, data: Bytes)
    requires DocumentTree(es, data)
    ensures BsonToDict(data) == Fold(es, [])
  {
    hide Container, ElementsSpec;
    assert data[0..|data|] == data;
    ObjectComplete(es, data, 0, |data|);
  }

  /** The decoder accepts exactly the derivable byte strings whose tree has a meaning. */
  lemma {:induction false} DecoderMeetsGrammar(data: Bytes, fs: Fields)
    ensures BsonToDict(data) == Some(fs) <==> exists es :: DocumentTree(es, data) && Fold(es, []) == Some(fs)
  {
    if BsonToDict(data) == Some(fs) {
      var es := AcceptedIsDerivable(data);
    }
    forall es | DocumentTree(es, data)
      ensures BsonToDict(data) == Fold(es, [])
    {
      DerivableIsDecoded(es, data);
    }
  }
}
