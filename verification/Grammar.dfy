/**
 The BSON grammar (bsonspec.org, version 1.1) as parse trees: `Payload` is the byte string a
 tree derives, `WellFormed` its side conditions, `Meaning` the Python value it stands for.
 Nothing here mentions positions: this is the reference the decoder is compared with.
 */
module Grammar {
  import opened Bytes
  import opened Bson

  type int32 = n: int | IsInt32(n)

  datatype Element = Element(name: Bytes, node: Node)

  type Elements = seq<Element>

  datatype Node =
    | NDouble(bits: Word8)
    | NString(s: Bytes)
    | NDocument(es: Elements)
    | NArray(es: Elements)
    | NBinary(subtype: byte, data: Bytes)
    | NUndefined
    | NObjectId(oid: Word12)
    | NBoolean(b: bool)
    | NDatetime(ms: int64)
    | NNull
    | NRegex(pattern: Bytes, options: Bytes)
    | NDBPointer(s: Bytes, oid: Word12)
    | NCode(s: Bytes)
    | NSymbol(s: Bytes)
    | NCodeWithScope(s: Bytes, es: Elements)
    | NInt32(i: int32)
    | NTimestamp(inc: uint32, time: uint32)
    | NInt64(l: int64)
    | NDecimal128(bid: Word16)
    | NMinKey
    | NMaxKey

  function TypeCode(n: Node): (t: byte)
  {
    match n
    case NDouble(_) => 0x01
    case NString(_) => 0x02
    case NDocument(_) => 0x03
    case NArray(_) => 0x04
    case NBinary(_, _) => 0x05
    case NUndefined => 0x06
    case NObjectId(_) => 0x07
    case NBoolean(_) => 0x08
    case NDatetime(_) => 0x09
    case NNull => 0x0a
    case NRegex(_, _) => 0x0b
    case NDBPointer(_, _) => 0x0c
    case NCode(_) => 0x0d
    case NSymbol(_) => 0x0e
    case NCodeWithScope(_, _) => 0x0f
    case NInt32(_) => 0x10
    case NTimestamp(_, _) => 0x11
    case NInt64(_) => 0x12
    case NDecimal128(_) => 0x13
    case NMinKey => 0xff
    case NMaxKey => 0x7f
  }

  // ---- the bytes a tree derives ---------------------------------------------------------

  /** `string ::= int32 (byte*) "\x00"`, the length counting the final NUL. */
  function StringBytes(s: Bytes): (r: Bytes)
    ensures |r| == |s| + 5
  {
    Le(|s| + 1, 4) + s + [0]
  }

  /** `document ::= int32 e_list "\x00"`, the length counting itself and the final NUL. */
  function Container(body: Bytes): (r: Bytes)
    ensures |r| == |body| + 5
  {
    Le(|body| + 5, 4) + body + [0]
  }

  function BinaryBytes(subtype: byte, data: Bytes): (r: Bytes)
  {
    if subtype == 2 then Le(|data| + 4, 4) + [2] + Le(|data|, 4) + data
    else Le(|data|, 4) + [subtype] + data
  }

  function Payload(n: Node): (r: Bytes)
    decreases n
  {
    match n
    case NDouble(bits) => bits
    case NString(s) => StringBytes(s)
    case NDocument(es) => Container(Yield(es))
    case NArray(es) => Container(Yield(es))
    case NBinary(subtype, data) => BinaryBytes(subtype, data)
    case NUndefined => []
    case NObjectId(oid) => oid
    case NBoolean(b) => [if b then 1 else 0]
    case NDatetime(ms) => PackInt64(ms)
    case NNull => []
    case NRegex(pattern, options) => pattern + [0] + (options + [0])
    case NDBPointer(s, oid) => StringBytes(s) + oid
    case NCode(s) => StringBytes(s)
    case NSymbol(s) => StringBytes(s)
    case NCodeWithScope(s, es) =>
      var code := StringBytes(s) + Container(Yield(es));
      Le(|code| + 4, 4) + code
    case NInt32(i) => PackInt32(i)
    case NTimestamp(inc, time) => Le(inc, 4) + Le(time, 4)
    case NInt64(l) => PackInt64(l)
    case NDecimal128(bid) => bid
    case NMinKey => []
    case NMaxKey => []
  }

  /** `element ::= type cstring payload`. */
  function YieldOne(e: Element): (r: Bytes)
    decreases e
    ensures |r| >= 2
  {
    [TypeCode(e.node)] + (e.name + [0]) + Payload(e.node)
  }

  /** `e_list`. */
  function Yield(es: Elements): (r: Bytes)
    decreases es
  {
    if es == [] then [] else YieldOne(es[0]) + Yield(es[1..])
  }

  // ---- side conditions ------------------------------------------------------------------

  ghost predicate WellFormed(n: Node)
    decreases n
  {
    match n
    case NString(s) => TextOk(s)
    case NDocument(es) => WellFormedAll(es, true) && |Yield(es)| + 5 <= MAX_INT32
    case NArray(es) => WellFormedAll(es, false) && |Yield(es)| + 5 <= MAX_INT32
    case NBinary(subtype, data) => |data| + (if subtype == 2 then 4 else 0) <= MAX_INT32
    case NRegex(pattern, options) =>
      NoNul(pattern) && ValidUtf8(pattern) && NoNul(options) && ValidUtf8(options)
    case NDBPointer(s, _) => TextOk(s)
    case NCode(s) => TextOk(s)
    case NSymbol(s) => TextOk(s)
    case NCodeWithScope(s, es) =>
      && TextOk(s) && WellFormedAll(es, true)
      && |StringBytes(s)| + |Yield(es)| + 9 <= MAX_INT32
    case _ => true
  }

  ghost predicate TextOk(s: Bytes) { ValidUtf8(s) && |s| + 1 <= MAX_INT32 }

  /** Array names are skipped, never decoded: they need not be valid UTF-8. */
  ghost predicate WellFormedAll(es: Elements, named: bool)
    decreases es
  {
    es != [] ==>
      && NoNul(es[0].name) && (named ==> ValidUtf8(es[0].name))
      && WellFormed(es[0].node)
      && WellFormedAll(es[1..], named)
  }

  // ---- what a tree means ----------------------------------------------------------------

  /** The decoded value; None where `Code` refuses its scope because it decoded to a DBRef. */
  ghost function Meaning(n: Node): (r: Option<Value>)
    decreases n
  {
    match n
    case NDouble(bits) => Some(Float(bits))
    case NString(s) => Some(Text(s))
    case NDocument(es) => RecogniseAll(Fold(es, []))
    case NArray(es) =>
      var items := Items(es, []);
      if items.None? then None else Some(List(items.value))
    case NBinary(subtype, data) => Some(if subtype == 0 then RawBytes(data) else Binary(data, subtype))
    case NUndefined => Some(Null)
    case NObjectId(oid) => Some(ObjectId(oid))
    case NBoolean(b) => Some(Bool(b))
    case NDatetime(ms) => Some(DatetimeMs(ms))
    case NNull => Some(Null)
    case NRegex(pattern, options) => Some(Regex(pattern, FlagsOfLetters(options)))
    case NDBPointer(s, oid) => Some(DBRef(Text(s), ObjectId(oid), Null, []))
    case NCode(s) => Some(Code(s))
    case NSymbol(s) => Some(Text(s))
    case NCodeWithScope(s, es) => AsScope(s, RecogniseAll(Fold(es, [])))
    case NInt32(i) => Some(Int(i))
    case NTimestamp(inc, time) => Some(Timestamp(time, inc))
    case NInt64(l) => Some(Int64(l))
    case NDecimal128(bid) => Some(Decimal128(bid))
    case NMinKey => Some(MinKey)
    case NMaxKey => Some(MaxKey)
  }

  function RecogniseAll(fs: Option<Fields>): (r: Option<Value>)
  {
    if fs.None? then None else Some(Recognise(fs.value))
  }

  /** `Code(code, scope)` raises TypeError unless the scope is a mapping. */
  function AsScope(code: Bytes, scope: Option<Value>): (r: Option<Value>)
  {
    if scope.Some? && scope.value.Mapping? then Some(CodeWithScope(code, scope.value.fields)) else None
  }

  /** The dictionary built from the elements in order, starting from `acc`. */
  ghost function Fold(es: Elements, acc: Fields): (r: Option<Fields>)
    decreases es
  {
    if es == [] then Some(acc)
    else
      var v := Meaning(es[0].node);
      if v.None? then None else Fold(es[1..], Put(acc, es[0].name, v.value))
  }

  /** The list built from the elements in order, starting from `acc`. */
  ghost function Items(es: Elements, acc: seq<Value>): (r: Option<seq<Value>>)
    decreases es
  {
    if es == [] then Some(acc)
    else
      var v := Meaning(es[0].node);
      if v.None? then None else Items(es[1..], acc + [v.value])
  }
}
