/**
 The pure-Python decoder of bson/__init__.py: getters that thread a position through `data`.
 Every exception is turned into InvalidBSON by `_bson_to_dict`, so a failure is `None` here.
 The functions are the specification of the two loops, which stand at the end as methods.
 */
module Decoder {
  import opened Bytes
  import opened Bson
  import opened Grammar

  type Read<T> = Option<(T, nat)>

  /** Python indexing: a negative index counts from the end, out of range raises. */
  function At(data: Bytes, i: int): (r: Option<byte>)
  {
    if 0 <= i < |data| then Some(data[i])
    else if -|data| <= i < 0 then Some(data[|data| + i])
    else None
  }

  /** `_UNPACK_INT_FROM(data, pos)[0]`. */
  function UnpackIntFrom(data: Bytes, pos: nat): (r: Option<int>)
    ensures r.Some? ==> pos + 4 <= |data| && IsInt32(r.value)
  {
    if pos + 4 <= |data| then
      ToInt32Range(data[pos..pos + 4]);
      Some(UnpackInt32(data[pos..pos + 4]))
    else None
  }

  lemma {:induction false} ToInt32Range(s: Bytes)
    requires |s| == 4
    ensures IsInt32(UnpackInt32(s))
  {
    UnpackInt32RoundTrip(s);
  }

  lemma {:induction false} ToInt64Range(s: Bytes)
    requires |s| == 8
    ensures IsInt64(UnpackInt64(s))
  {
    UnpackInt64RoundTrip(s);
  }

  function GetCString(data: Bytes, pos: nat): (r: Read<Bytes>)
    ensures r.Some? ==> pos < r.value.1 <= |data|
  {
    if pos > |data| then None
    else
      var end := IndexOfNul(data, pos);
      if end.Some? && ValidUtf8(data[pos..end.value])
      then Some((data[pos..end.value], end.value + 1)) else None
  }

  /** The end is wherever the caller says it may be at most: it need not be inside `data`. */
  function GetString(data: Bytes, pos: nat, objEnd: int): (r: Read<Bytes>)
    ensures r.Some? ==> pos < r.value.1 <= |data|
  {
    var length := UnpackIntFrom(data, pos);
    if length.None? || length.value < 1 || objEnd - (pos + 4) < length.value then None
    else
      var end := pos + 4 + length.value - 1;
      if At(data, end) == Some(0) && ValidUtf8(data[pos + 4..end])
      then Some((data[pos + 4..end], end + 1)) else None
  }

  /** The declared size and the index of the final NUL; both may be negative. */
  function GetObjectSize(data: Bytes, pos: nat, objEnd: int): (r: Option<(int, int)>)
    ensures r.Some? ==> r.value.1 == pos + r.value.0 - 1 < |data|
  {
    var size := UnpackIntFrom(data, pos);
    if size.None? then None
    else
      var end := pos + size.value - 1;
      if end >= objEnd || At(data, end) != Some(0) then None
      else if pos == 0 && size.value != objEnd then None
      else Some((size.value, end))
  }

  /** `n` bytes at `pos`, as `unpack_from` or a length-checked slice reads them. */
  function Take(data: Bytes, pos: nat, n: nat): (r: Option<Bytes>)
    ensures r.Some? ==> pos + n <= |data| && |r.value| == n
  {
    if pos + n <= |data| then Some(data[pos..pos + n]) else None
  }

  function GetBinary(data: Bytes, pos: nat, objEnd: int): (r: Read<Value>)
    requires objEnd <= |data|
    ensures r.Some? ==> pos < r.value.1 <= |data|
  {
    if pos + 5 > |data| then None
    else
      var length := UnpackIntFrom(data, pos).value;
      var subtype := data[pos + 4];
      if subtype == 2 then
        var length2 := UnpackIntFrom(data, pos + 5);
        if length2.None? || length2.value != length - 4 then None
        else BinaryAt(data, pos + 9, length2.value, subtype, objEnd)
      else BinaryAt(data, pos + 5, length, subtype, objEnd)
  }

  function BinaryAt(data: Bytes, pos: nat, length: int, subtype: byte, objEnd: int): (r: Read<Value>)
    requires objEnd <= |data|
    ensures r.Some? ==> pos <= r.value.1 <= |data|
  {
    if length < 0 || pos + length > objEnd then None
    else
      var value := data[pos..pos + length];
      Some((if subtype == 0 then RawBytes(value) else Binary(value, subtype), pos + length))
  }

  function GetRegex(data: Bytes, pos: nat): (r: Read<Value>)
    ensures r.Some? ==> pos < r.value.1 <= |data|
  {
    var pattern := GetCString(data, pos);
    if pattern.None? then None
    else
      var flags := GetCString(data, pattern.value.1);
      if flags.None? then None
      else Some((Regex(pattern.value.0, FlagsOfLetters(flags.value.0)), flags.value.1))
  }

  function GetDBPointer(data: Bytes, pos: nat, objEnd: int): (r: Read<Value>)
    ensures r.Some? ==> pos < r.value.1 <= |data|
  {
    var collection := GetString(data, pos, objEnd);
    if collection.None? then None
    else
      var oid := Take(data, collection.value.1, 12);
      if oid.None? then None
      else Some((DBRef(Text(collection.value.0), ObjectId(oid.value), Null, []), collection.value.1 + 12))
  }

  function GetBoolean(data: Bytes, pos: nat): (r: Read<Value>)
    ensures r.Some? ==> pos < r.value.1 <= |data|
  {
    if pos < |data| && data[pos] == 0 then Some((Bool(false), pos + 1))
    else if pos < |data| && data[pos] == 1 then Some((Bool(true), pos + 1))
    else None
  }

  function GetTimestamp(data: Bytes, pos: nat): (r: Read<Value>)
    ensures r.Some? ==> pos < r.value.1 <= |data|
  {
    if pos + 8 <= |data| then
      UnpackUint32RoundTrip(data[pos..pos + 4]);
      UnpackUint32RoundTrip(data[pos + 4..pos + 8]);
      Some((Timestamp(FromLe(data[pos + 4..pos + 8]), FromLe(data[pos..pos + 4])), pos + 8))
    else None
  }

  function AsText(s: Read<Bytes>): (r: Read<Value>)
  {
    if s.None? then None else Some((Text(s.value.0), s.value.1))
  }

  function AsCode(s: Read<Bytes>): (r: Read<Value>)
  {
    if s.None? then None else Some((Code(s.value.0), s.value.1))
  }

  /** The getters of fixed width, which only need the bytes to be there. */
  function GetFixed(t: byte, data: Bytes, pos: nat): (r: Read<Value>)
    ensures r.Some? ==> pos <= r.value.1 && (pos <= |data| ==> r.value.1 <= |data|)
  {
    match t
    case 0x01 =>
      var w := Take(data, pos, 8);
      if w.None? then None else Some((Float(w.value), pos + 8))
    case 0x06 => Some((Null, pos))
    case 0x07 =>
      var w := Take(data, pos, 12);
      if w.None? then None else Some((ObjectId(w.value), pos + 12))
    case 0x08 => GetBoolean(data, pos)
    case 0x09 =>
      var w := Take(data, pos, 8);
      if w.None? then None
      else
        ToInt64Range(w.value);
        Some((DatetimeMs(UnpackInt64(w.value)), pos + 8))
    case 0x0a => Some((Null, pos))
    case 0x10 =>
      var w := Take(data, pos, 4);
      if w.None? then None else Some((Int(UnpackInt32(w.value)), pos + 4))
    case 0x11 => GetTimestamp(data, pos)
    case 0x12 =>
      var w := Take(data, pos, 8);
      if w.None? then None else Some((Int64(UnpackInt64(w.value)), pos + 8))
    case 0x13 =>
      var w := Take(data, pos, 16);
      if w.None? then None else Some((Decimal128(w.value), pos + 16))
    case 0xff => Some((MinKey, pos))
    case 0x7f => Some((MaxKey, pos))
    case _ => None
  }

  /** The getters that do not recurse. */
  function GetScalar(t: byte, data: Bytes, pos: nat, objEnd: int): (r: Read<Value>)
    requires objEnd <= |data|
    ensures r.Some? ==> pos <= r.value.1 && (pos <= |data| ==> r.value.1 <= |data|)
  {
    match t
    case 0x02 => AsText(GetString(data, pos, objEnd))
    case 0x05 => GetBinary(data, pos, objEnd)
    case 0x0b => GetRegex(data, pos)
    case 0x0c => GetDBPointer(data, pos, objEnd)
    case 0x0d => AsCode(GetString(data, pos, objEnd))
    case 0x0e => AsText(GetString(data, pos, objEnd))
    case _ => GetFixed(t, data, pos)
  }

  /** `_ELEMENT_GETTER[type](data, view, pos, obj_end, ...)`. */
  function GetValue(t: byte, data: Bytes, pos: nat, objEnd: int): (r: Read<Value>)
    requires pos <= |data| && objEnd <= |data|
    decreases |data| - pos, 2
    ensures r.Some? ==> pos <= r.value.1 <= |data|
  {
    match t
    case 0x03 => GetObject(data, pos, objEnd)
    case 0x04 => GetArraySpec(data, pos, objEnd)
    case 0x0f => GetCodeWithScope(data, pos)
    case _ => GetScalar(t, data, pos, objEnd)
  }

  /** `_get_object`: a subdocument, or the DBRef it spells. */
  function GetObject(data: Bytes, pos: nat, objEnd: int): (r: Read<Value>)
    requires pos <= |data|
    decreases |data| - pos, 1
    ensures r.Some? ==> pos < r.value.1 <= |data|
  {
    var size := GetObjectSize(data, pos, objEnd);
    if size.None? then None
    else
      var obj := ElementsSpec(data, pos + 4, size.value.1, []);
      if obj.None? then None
      else Some((Recognise(obj.value), pos + size.value.0))
  }

  /** `_get_array`: its end is never compared with `obj_end`. */
  function GetArraySpec(data: Bytes, pos: nat, objEnd: int): (r: Read<Value>)
    requires pos <= |data| && objEnd <= |data|
    decreases |data| - pos, 1
    ensures r.Some? ==> pos < r.value.1 <= |data|
  {
    var size := UnpackIntFrom(data, pos);
    if size.None? then None
    else
      var end := pos + size.value - 1;
      if At(data, end) != Some(0) then None
      else ArrayItemsSpec(data, pos + 4, end - 1, objEnd, [])
  }

  /** The loop of `_get_array` from `pos`, with `acc` already read. */
  function ArrayItemsSpec(data: Bytes, pos: nat, end: int, objEnd: int, acc: seq<Value>): (r: Read<Value>)
    requires pos <= |data| && objEnd <= |data| && end + 1 < |data|
    decreases |data| - pos, 1
    ensures r.Some? ==> pos < r.value.1 <= |data|
  {
    if pos < end then
      var item := ArrayElement(data, pos, objEnd);
      if item.None? then None
      else ArrayItemsSpec(data, item.value.1, end, objEnd, acc + [item.value.0])
    else if pos != end + 1 then None
    else Some((List(acc), pos + 1))
  }

  /** One turn of that loop: the key is skipped, the type byte included in the search. */
  function ArrayElement(data: Bytes, pos: nat, objEnd: int): (r: Read<Value>)
    requires pos < |data| && objEnd <= |data|
    decreases |data| - pos, 0
    ensures r.Some? ==> pos < r.value.1 <= |data|
  {
    var nul := IndexOfNul(data, pos);
    if nul.None? then None else GetValue(data[pos], data, nul.value + 1, objEnd)
  }

  function GetCodeWithScope(data: Bytes, pos: nat): (r: Read<Value>)
    requires pos <= |data|
    decreases |data| - pos, 1
    ensures r.Some? ==> pos < r.value.1 <= |data|
  {
    var length := UnpackIntFrom(data, pos);
    if length.None? then None
    else
      var codeEnd := pos + length.value;
      var code := GetString(data, pos + 4, codeEnd);
      if code.None? then None
      else
        var scope := GetObject(data, code.value.1, codeEnd);
        if scope.None? || scope.value.1 != codeEnd || !scope.value.0.Mapping? then None
        else Some((CodeWithScope(code.value.0, scope.value.0.fields), codeEnd))
  }

  /** `_element_to_dict` with `raw_array` off. */
  function ElementToDict(data: Bytes, pos: nat, objEnd: int): (r: Option<(Bytes, Value, nat)>)
    requires pos < |data| && objEnd <= |data|
    decreases |data| - pos, 0
    ensures r.Some? ==> pos < r.value.2 <= |data|
  {
    var name := GetCString(data, pos + 1);
    if name.None? then None
    else
      var value := GetValue(data[pos], data, name.value.1, objEnd);
      if value.None? then None else Some((name.value.0, value.value.0, value.value.1))
  }

  /** The loop of `_elements_to_dict` from `pos`, with `acc` already read. */
  function ElementsSpec(data: Bytes, pos: nat, objEnd: int, acc: Fields): (r: Option<Fields>)
    requires pos <= |data| && objEnd < |data|
    decreases |data| - pos, 1
    ensures r.Some? ==> pos <= objEnd
  {
    if pos < objEnd - 1 then
      var e := ElementToDict(data, pos, objEnd);
      if e.None? then None
      else ElementsSpec(data, e.value.2, objEnd, Put(acc, e.value.0, e.value.1))
    else if pos != objEnd then None
    else Some(acc)
  }

  /** `_bson_to_dict`. */
  function BsonToDict(data: Bytes): (r: Option<Fields>)
  {
    var size := GetObjectSize(data, 0, |data|);
    if size.None? then None else ElementsSpec(data, 4, size.value.1, [])
  }

  // ---- the loops ------------------------------------------------------------------------

  /** `_elements_to_dict`. */
  method ElementsToDict(data: Bytes, start: nat, objEnd: int) returns (result: Option<Fields>)
    requires start <= |data| && objEnd < |data|
    ensures result == ElementsSpec(data, start, objEnd, [])
  {
    var position := start;
    var fields: Fields := [];
    var end := objEnd - 1;
    while position < end
      invariant position <= |data|
      invariant ElementsSpec(data, start, objEnd, []) == ElementsSpec(data, position, objEnd, fields)
      decreases |data| - position
    {
      var e := ElementToDict(data, position, objEnd);
      if e.None? {
        return None;
      }
      fields := Put(fields, e.value.0, e.value.1);
      position := e.value.2;
    }
    if position != objEnd {
      return None;
    }
    return Some(fields);
  }

  /** `_get_array`. */
  method GetArray(data: Bytes, start: nat, objEnd: int) returns (result: Read<Value>)
    requires start <= |data| && objEnd <= |data|
    ensures result == GetArraySpec(data, start, objEnd)
  {
    var size := UnpackIntFrom(data, start);
    if size.None? {
      return None;
    }
    var end := start + size.value - 1;
    if At(data, end) != Some(0) {
      return None;
    }
    var position := start + 4;
    end := end - 1;
    var items: seq<Value> := [];
    while position < end
      invariant position <= |data|
      invariant GetArraySpec(data, start, objEnd) == ArrayItemsSpec(data, position, end, objEnd, items)
      decreases |data| - position
    {
      var item := ArrayElement(data, position, objEnd);
      if item.None? {
        return None;
      }
      items := items + [item.value.0];
      position := item.value.1;
    }
    if position != end + 1 {
      return None;
    }
    return Some((List(items), position + 1));
  }
}
