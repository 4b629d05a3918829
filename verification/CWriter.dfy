/**
 The C encoder of bson/_cbsonmodule.c with key checking off: `write_dict`, `write_pair` and
 `_write_element_to_buffer` append to the growable buffer, store each type byte after the name is
 written, and patch lengths into space saved for them.  Every method is proved to append exactly
 the bytes of the functional encoder for `AsC` of the value, and to fail exactly when that encoder
 fails or the buffer would outgrow a C int.  CValues says for which values `AsC` changes nothing.
 */
module CWriter {
  import opened Bytes
  import opened Bson
  import opened Encoder
  import opened ReadBack
  import opened CBuffer
  import opened CValues
  import CDigits

  // ---- algebra of appending -------------------------------------------------------------

  /** Appending in two steps. */
  lemma {:induction false} AppendedTwice(c: Bytes, a: Bytes, b: Option<Bytes>)
    requires |c| + |a| <= MAX_INT32
    ensures Appended(c + a, b) == Appended(c, Concat(Some(a), b))
  {
    if b.Some? {
      assert c + a + b.value == c + (a + b.value);
    }
  }

  lemma {:induction false} TaggedAppended(c: Bytes, t: byte, name: Bytes, payload: Option<Bytes>)
    requires |c| + 1 + |name| <= MAX_INT32
    ensures Appended(c + [t] + name, payload) == Appended(c, Tagged(t, name, payload))
  {
    if payload.Some? {
      assert c + [t] + name + payload.value == c + ([t] + name + payload.value);
    }
  }

  /** Replacing the four saved bytes after `c` once the body and its NUL are in place. */
  lemma {:induction false} Closed(c: Bytes, saved: Bytes, body: Bytes)
    requires |saved| == 4 && |c| + |body| + 5 <= MAX_INT32
    ensures var all := c + saved + body + [0];
            all[..|c|] + PackInt32(|body| + 5) + all[|c| + 4..] == Appended(c, Enclose(Some(body))).value
  {
    hide PackInt32;
    var all := c + saved + body + [0];
    assert all[..|c|] == c && all[|c| + 4..] == body + [0];
  }

  lemma {:induction false} ClosedCode(c: Bytes, open: Bytes, body: Bytes)
    requires |open| == |c| + 4 && open[..|c|] == c && |c| + |body| + 4 <= MAX_INT32
    ensures var all := open + body;
            all[..|c|] + PackInt32(|body| + 4) + all[|c| + 4..] == c + (PackInt32(|body| + 4) + body)
  {
    hide PackInt32;
    var all := open + body;
    assert all[..|c|] == c && all[|c| + 4..] == body;
  }

  // ---- leaves ---------------------------------------------------------------------------

  /** The type byte stored for a leaf. */
  function TypeByte(v: Value): (t: byte)
    requires IsLeaf(v)
  {
    match v
    case Float(_) => 0x01
    case Text(_) => 0x02
    case RawBytes(_) => 0x05
    case Binary(_, _) => 0x05
    case ObjectId(_) => 0x07
    case Bool(_) => 0x08
    case DatetimeMs(_) => 0x09
    case Null => 0x0a
    case Regex(_, _) => 0x0b
    case Code(_) => 0x0d
    case Int(n) => if IsInt32(n) then 0x10 else 0x12
    case Timestamp(_, _) => 0x11
    case Int64(_) => 0x12
    case Decimal128(_) => 0x13
    case MinKey => 0xff
    case MaxKey => 0x7f
  }

  /** The bytes that follow a leaf's name. */
  function LeafPayload(v: Value): (r: Option<Bytes>)
    requires IsLeaf(v)
  {
    match v
    case Float(bits) => Some(bits)
    case Text(s) => EncodeText(s)
    case RawBytes(data) => EncodeBinary(data, 0)
    case Binary(data, subtype) => if SignedChar(subtype) == -1 then None else EncodeBinary(data, subtype)
    case ObjectId(oid) => Some(oid)
    case Bool(b) => Some([if b then 1 else 0])
    case DatetimeMs(ms) => Some(PackInt64(ms))
    case Null => Some([])
    case Regex(pattern, flags) => if flags > MAX_LONG then None else EncodeRegex(pattern, flags)
    case Code(code) => EncodeText(code)
    case Int(n) => if IsInt32(n) then Some(PackInt32(n)) else if IsInt64(n) then Some(PackInt64(n)) else None
    case Timestamp(time, inc) => Some(Le(inc, 4) + Le(time, 4))
    case Int64(n) => if IsInt64(n) then Some(PackInt64(n)) else None
    case Decimal128(bid) => Some(bid)
    case MinKey => Some([])
    case MaxKey => Some([])
  }

  lemma {:induction false} LeafEncoding(name: Bytes, v: Value)
    requires IsLeaf(v)
    ensures EncodeValue(name, AsC(v), false) == Tagged(TypeByte(v), name, LeafPayload(v))
  {
    hide EncodeText, EncodeBinary, EncodeRegex, PackInt32, PackInt64, Le;
    assert forall t: byte :: [t] + name + [] == [t] + name;
  }

  /** Two writes in a row: `a` then `b`, all or nothing as far as success is concerned. */
  method WriteTwo(buffer: Buffer, a: Bytes, b: Bytes) returns (ok: bool)
    requires buffer.Valid() && |a| <= MAX_INT32 && |b| <= MAX_INT32
    modifies buffer, buffer.data
    ensures buffer.Valid() && (buffer.data == old(buffer.data) || fresh(buffer.data))
    ensures var r := Appended(old(buffer.Contents()), Some(a + b));
            ok == r.Some? && (ok ==> buffer.Contents() == r.value)
  {
    ghost var c := buffer.Contents();
    ok := buffer.Write(a);
    if !ok {
      return;
    }
    AppendedTwice(c, a, Some(b));
    ok := buffer.Write(b);
  }

  /** `write_unicode`: `_downcast_and_check` refuses a size that does not fit a C int. */
  method WriteString(buffer: Buffer, s: Bytes) returns (ok: bool)
    requires buffer.Valid()
    modifies buffer, buffer.data
    ensures buffer.Valid() && (buffer.data == old(buffer.data) || fresh(buffer.data))
    ensures var r := Appended(old(buffer.Contents()), EncodeText(s));
            ok == r.Some? && (ok ==> buffer.Contents() == r.value)
  {
    hide ValidUtf8, PackInt32;
    if !ValidUtf8(s) || |s| + 1 > MAX_INT32 {
      return false;
    }
    assert PackInt32(|s| + 1) + (s + [0]) == PackInt32(|s| + 1) + s + [0];
    ok := WriteTwo(buffer, PackInt32(|s| + 1), s + [0]);
  }

  /** The Binary and bytes cases: with subtype 2 the inner length follows the subtype. */
  method WriteBinary(buffer: Buffer, data: Bytes, subtype: byte) returns (ok: bool)
    requires buffer.Valid()
    modifies buffer, buffer.data
    ensures buffer.Valid() && (buffer.data == old(buffer.data) || fresh(buffer.data))
    ensures var bytes := if SignedChar(subtype) == -1 then None else EncodeBinary(data, subtype);
            var r := Appended(old(buffer.Contents()), bytes);
            ok == r.Some? && (ok ==> buffer.Contents() == r.value)
  {
    hide PackInt32;
    ghost var c := buffer.Contents();
    if SignedChar(subtype) == -1 {
      return false;
    }
    if |data| > MAX_INT32 {
      return false;
    }
    if subtype == 2 {
      if |data| + 4 > MAX_INT32 {
        return false;
      }
      ghost var head := PackInt32(|data| + 4) + [2];
      ok := WriteTwo(buffer, PackInt32(|data| + 4), [2]);
      if !ok {
        return;
      }
      AppendedTwice(c, head, Some(PackInt32(|data|) + data));
      assert |PackInt32(|data|) + data| == |data| + 4;
      ok := WriteTwo(buffer, PackInt32(|data|), data);
    } else {
      ghost var head := PackInt32(|data|) + [subtype];
      ok := WriteTwo(buffer, PackInt32(|data|), [subtype]);
      if !ok {
        return;
      }
      AppendedTwice(c, head, Some(data));
      ok := buffer.Write(data);
    }
  }

  /** `_write_regex_to_buffer`. */
  method WriteRegex(buffer: Buffer, pattern: Bytes, flags: nat) returns (ok: bool)
    requires buffer.Valid()
    modifies buffer, buffer.data
    ensures buffer.Valid() && (buffer.data == old(buffer.data) || fresh(buffer.data))
    ensures var bytes := if flags > MAX_LONG then None else EncodeRegex(pattern, flags);
            var r := Appended(old(buffer.Contents()), bytes);
            ok == r.Some? && (ok ==> buffer.Contents() == r.value)
  {
    hide ValidUtf8, EncodeFlags;
    if flags > MAX_LONG {                        // PyLong_AsLong
      return false;
    }
    if |pattern| > MAX_INT32 - 1 || !NoNul(pattern) || !ValidUtf8(pattern) {
      return false;
    }
    FlagBytes(flags);
    ok := WriteTwo(buffer, pattern + [0], FlagLetters(flags) + [0]);
  }

  /** None, MinKey and MaxKey are their type byte alone. */
  method WriteNothing(buffer: Buffer) returns (ok: bool)
    requires buffer.Valid()
    ensures ok && Appended(buffer.Contents(), Some([])) == Some(buffer.Contents())
  {
    assert buffer.Contents() + [] == buffer.Contents();
    ok := true;
  }

  /** The leaf cases of `_write_element_to_buffer`, after the type byte is stored. */
  method WriteLeaf(buffer: Buffer, v: Value) returns (ok: bool)
    requires buffer.Valid() && IsLeaf(v)
    modifies buffer, buffer.data
    ensures buffer.Valid() && (buffer.data == old(buffer.data) || fresh(buffer.data))
    ensures var r := Appended(old(buffer.Contents()), LeafPayload(v));
            ok == r.Some? && (ok ==> buffer.Contents() == r.value)
  {
    hide EncodeText, EncodeBinary, EncodeRegex, PackInt32, PackInt64, Le;
    match v {
      case Float(bits) => ok := buffer.Write(bits);
      case Text(s) => ok := WriteString(buffer, s);
      case RawBytes(data) => ok := WriteBinary(buffer, data, 0);
      case Binary(data, subtype) => ok := WriteBinary(buffer, data, subtype);
      case ObjectId(oid) => ok := buffer.Write(oid);
      case Bool(b) => ok := buffer.Write([if b then 1 else 0]);
      case DatetimeMs(ms) => ok := buffer.Write(PackInt64(ms));
      case Regex(pattern, flags) => ok := WriteRegex(buffer, pattern, flags);
      case Code(code) => ok := WriteString(buffer, code);
      case Int(n) =>
        if IsInt32(n) {
          ok := buffer.Write(PackInt32(n));
        } else if IsInt64(n) {
          ok := buffer.Write(PackInt64(n));
        } else {
          ok := false;
        }
      case Timestamp(time, inc) => ok := WriteTwo(buffer, Le(inc, 4), Le(time, 4));
      case Int64(n) =>
        if IsInt64(n) {
          ok := buffer.Write(PackInt64(n));
        } else {
          ok := false;
        }
      case Decimal128(bid) => ok := buffer.Write(bid);
      case Null => ok := WriteNothing(buffer);
      case MinKey => ok := WriteNothing(buffer);
      case MaxKey => ok := WriteNothing(buffer);
    }
  }

  // ---- elements, pairs, documents -------------------------------------------------------

  /** `before`, one type byte still open, and then `rest`. */
  ghost predicate OpenSlot(contents: Bytes, before: Bytes, rest: Bytes)
  {
    && |contents| == |before| + 1 + |rest|
    && contents[..|before|] == before && contents[|before| + 1..] == rest
  }

  /** `*(pymongo_buffer_get_buffer(buffer) + type_byte) = t`. */
  method SetType(buffer: Buffer, typeByte: int, t: byte, ghost before: Bytes, ghost rest: Bytes)
    requires buffer.Valid() && typeByte == |before| && OpenSlot(buffer.Contents(), before, rest)
    modifies buffer.data
    ensures buffer.Valid() && buffer.Contents() == before + [t] + rest
  {
    buffer.Patch(typeByte, [t]);
  }

  function ScopedCode(code: Bytes, scope: Fields): (r: Option<Bytes>)
  {
    var body := Concat(EncodeText(code), EncodeNested(AsCAll(scope), false));
    if body.None? || |body.value| + 4 > MAX_INT32 then None
    else Some(PackInt32(|body.value| + 4) + body.value)
  }

  lemma {:induction false} NestedEncodings(name: Bytes, v: Value)
    ensures v.Mapping? ==> EncodeValue(name, AsC(v), false) == Tagged(0x03, name, EncodeNested(AsCAll(v.fields), false))
    ensures v.List? ==>
              EncodeValue(name, AsC(v), false) == Tagged(0x04, name, Enclose(EncodeItems(AsCItems(v.items), 0, false)))
    ensures v.CodeWithScope? ==> EncodeValue(name, AsC(v), false) == Tagged(0x0f, name, ScopedCode(v.code, v.scope))
    ensures v.DBRef? ==> EncodeValue(name, AsC(v), false) == Tagged(0x03, name, EncodeNested(AsCAll(AsDoc(v)), false))
    ensures v.Mapping? ==> SizeAll(v.fields) < Size(v)
    ensures v.List? ==> SizeItems(v.items) < Size(v)
    ensures v.CodeWithScope? ==> SizeAll(v.scope) < Size(v)
  {
    hide EncodeText, EncodeFields, EncodeItems, PackInt32, AsDoc;
  }

  /** `_write_element_to_buffer`: the contents are `before`, one open type byte, and the name. */
  method WriteElement(buffer: Buffer, typeByte: int, v: Value, ghost before: Bytes,
                      ghost name: Bytes) returns (ok: bool)
    requires buffer.Valid() && typeByte == |before| && OpenSlot(buffer.Contents(), before, name)
    modifies buffer, buffer.data
    decreases Size(v), 1
    ensures buffer.Valid() && (buffer.data == old(buffer.data) || fresh(buffer.data))
    ensures var r := Appended(before, EncodeValue(name, AsC(v), false));
            ok == r.Some? && (ok ==> buffer.Contents() == r.value)
  {
    hide EncodeValue, LeafPayload, EncodeNested, Size, AsC, AsCAll, AsCItems, ScopedCode, Enclose, Tagged, TypeByte,
         Appended, EncodeItems;
    match v {
      case Mapping(fs) =>
        NestedEncodings(name, v);
        TaggedAppended(before, 0x03, name, EncodeNested(AsCAll(fs), false));
        SetType(buffer, typeByte, 0x03, before, name);
        ok := WriteDict(buffer, fs, false);
      case List(items) =>
        NestedEncodings(name, v);
        TaggedAppended(before, 0x04, name, Enclose(EncodeItems(AsCItems(items), 0, false)));
        SetType(buffer, typeByte, 0x04, before, name);
        ok := WriteList(buffer, items);
      case CodeWithScope(code, scope) =>
        NestedEncodings(name, v);
        TaggedAppended(before, 0x0f, name, ScopedCode(code, scope));
        SetType(buffer, typeByte, 0x0f, before, name);
        ok := WriteCodeWithScope(buffer, code, scope);
      case DBRef(_, _, _, _) =>
        ok := WriteDBRef(buffer, typeByte, v, before, name);
      case _ =>
        TaggedAppended(before, TypeByte(v), name, LeafPayload(v));
        LeafEncoding(name, v);
        SetType(buffer, typeByte, TypeByte(v), before, name);
        ok := WriteLeaf(buffer, v);
    }
  }

  /** Appending behind an open type byte: the slot stays open, and filling it completes the element. */
  lemma {:induction false} SlotAppended(contents: Bytes, before: Bytes, name: Bytes, doc: Option<Bytes>)
    requires OpenSlot(contents, before, name)
    ensures var r := Appended(contents, doc);
            && r.Some? == Appended(before, Tagged(0x03, name, doc)).Some?
            && (r.Some? ==> doc.Some? && OpenSlot(r.value, before, name + doc.value)
                            && before + [0x03] + (name + doc.value) == Appended(before, Tagged(0x03, name, doc)).value)
  {
    if doc.Some? {
      assert (contents + doc.value)[|before| + 1..] == name + doc.value;
      assert (contents + doc.value)[..|before|] == before;
      assert before + [0x03] + (name + doc.value) == before + ([0x03] + name + doc.value);
    }
  }

  /** The DBRef case: `as_doc()` is written first, the type byte stored afterwards. */
  method WriteDBRef(buffer: Buffer, typeByte: int, v: Value, ghost before: Bytes, ghost name: Bytes) returns (ok: bool)
    requires v.DBRef? && buffer.Valid() && typeByte == |before| && OpenSlot(buffer.Contents(), before, name)
    modifies buffer, buffer.data
    decreases Size(v), 0
    ensures buffer.Valid() && (buffer.data == old(buffer.data) || fresh(buffer.data))
    ensures var r := Appended(before, EncodeValue(name, AsC(v), false));
            ok == r.Some? && (ok ==> buffer.Contents() == r.value)
  {
    hide EncodeValue, EncodeNested, Size, AsDoc, OpenSlot, Appended, Tagged;
    ghost var doc := EncodeNested(AsCAll(AsDoc(v)), false);
    NestedEncodings(name, v);
    SizeAsDoc(v);
    SlotAppended(buffer.Contents(), before, name, doc);
    ok := WriteDict(buffer, AsDoc(v), false);
    if ok {
      SetType(buffer, typeByte, 0x03, before, name + doc.value);
    }
  }

  lemma {:induction false} ScopedCodeIs(code: Bytes, scope: Fields)
    ensures var body := Concat(EncodeText(code), EncodeNested(AsCAll(scope), false));
            ScopedCode(code, scope) == if body.None? || |body.value| + 4 > MAX_INT32 then None
                                       else Some(PackInt32(|body.value| + 4) + body.value)
  {
  }

  /** The Code case with a scope: saves four bytes, writes text and scope, patches the length. */
  method WriteCodeWithScope(buffer: Buffer, code: Bytes, scope: Fields) returns (ok: bool)
    requires buffer.Valid()
    modifies buffer, buffer.data
    decreases SizeAll(scope), 4
    ensures buffer.Valid() && (buffer.data == old(buffer.data) || fresh(buffer.data))
    ensures var r := Appended(old(buffer.Contents()), ScopedCode(code, scope));
            ok == r.Some? && (ok ==> buffer.Contents() == r.value)
  {
    hide EncodeText, EncodeNested, PackInt32, AsCAll, ScopedCode;
    ScopedCodeIs(code, scope);
    ghost var c := buffer.Contents();
    var startPosition := buffer.position;
    var lengthLocation := buffer.SaveSpace(4);
    if lengthLocation == -1 {
      return false;
    }
    ghost var open := buffer.Contents();
    ok := WriteString(buffer, code);
    if !ok {
      return;
    }
    ghost var text := EncodeText(code).value;
    AppendedTwice(open, text, EncodeNested(AsCAll(scope), false));
    ok := WriteDict(buffer, scope, false);
    if !ok {
      return;
    }
    ghost var body := text + EncodeNested(AsCAll(scope), false).value;
    var length := buffer.position - startPosition;
    ClosedCode(c, open, body);
    buffer.Patch(lengthLocation, PackInt32(length));
  }

  /** The list case: each item under its decimal index. */
  method WriteList(buffer: Buffer, items: seq<Value>) returns (ok: bool)
    requires buffer.Valid()
    modifies buffer, buffer.data
    decreases SizeItems(items), 3
    ensures buffer.Valid() && (buffer.data == old(buffer.data) || fresh(buffer.data))
    ensures var r := Appended(old(buffer.Contents()), Enclose(EncodeItems(AsCItems(items), 0, false)));
            ok == r.Some? && (ok ==> buffer.Contents() == r.value)
  {
    hide EncodeValue, PackInt32, Digits, Size;
    ghost var c := buffer.Contents();
    if |items| > MAX_INT32 {
      if EncodeItems(AsCItems(items), 0, false).Some? {
        ItemsAreLong(AsCItems(items), 0);
      }
      return false;
    }
    var lengthLocation := buffer.SaveSpace(4);
    if lengthLocation == -1 {
      return false;
    }
    ghost var open, body := buffer.Contents(), [];
    assert open + [] == open && items[0..] == items;
    assert forall s: Bytes :: [] + s == s;
    var i := 0;
    while i < |items|
      invariant 0 <= i <= |items| && buffer.Valid() && buffer.Contents() == open + body
      invariant buffer.data == old(buffer.data) || fresh(buffer.data)
      invariant EncodeItems(AsCItems(items), 0, false)
                == Concat(Some(body), EncodeItems(AsCItems(items[i..]), i, false))
    {
      assert items[i..][1..] == items[i + 1..];
      SizeItemAt(items, i);
      ghost var item := EncodeValue(Digits(i) + [0], AsC(items[i]), false);
      ok := WriteItem(buffer, i, items[i]);
      if !ok {
        return;
      }
      ConcatAssoc(body, item.value, EncodeItems(AsCItems(items[i + 1..]), i + 1, false));
      assert open + body + item.value == open + (body + item.value);
      body := body + item.value;
      i := i + 1;
    }
    assert body + [] == body;
    ok := Finish(buffer, lengthLocation, c, open, body);
  }

  lemma {:induction false} ItemsAreLong(items: seq<Value>, i: nat)
    requires EncodeItems(items, i, false).Some?
    decreases |items|
    ensures |EncodeItems(items, i, false).value| >= |items|
  {
    hide Digits;
    if items != [] {
      ItemsAreLong(items[1..], i + 1);
    }
  }

  /** An encoded element is at least its type byte and its name. */
  lemma {:induction false} ElementLength(name: Bytes, v: Value)
    requires EncodeValue(name, v, false).Some?
    ensures |EncodeValue(name, v, false).value| >= 1 + |name|
  {
    hide EncodeText, EncodeBinary, EncodeRegex, EncodeFields, EncodeItems, EncodeRefElements, PackInt32, PackInt64, Le;
  }

  /** `strlen`. */
  method StrLen(str: array<byte>, ghost s: Bytes) returns (n: nat)
    requires NoNul(s) && |s| < str.Length && str[..|s|] == s && str[|s|] == 0
    ensures n == |s|
  {
    assert forall i :: 0 <= i < |s| ==> str[i] == s[i] != 0;
    n := 0;
    while str[n] != 0
      invariant n <= |s|
      decreases |s| - n
    {
      n := n + 1;
    }
  }

  /** One turn of the list loop: type byte, name, value. */
  method WriteItem(buffer: Buffer, i: nat, v: Value) returns (ok: bool)
    requires buffer.Valid() && i <= MAX_INT32
    modifies buffer, buffer.data
    decreases Size(v), 3
    ensures buffer.Valid() && (buffer.data == old(buffer.data) || fresh(buffer.data))
    ensures var r := Appended(old(buffer.Contents()), EncodeValue(Digits(i) + [0], AsC(v), false));
            ok == r.Some? && (ok ==> buffer.Contents() == r.value)
  {
    hide EncodeValue, Size, Digits;
    var str := new byte[21];
    var res;
    ghost var length;
    res, length := CDigits.LongLongToStr(i, str);
    assert str[..length] == Digits(i);
    var n := StrLen(str, Digits(i));
    CDigits.NameFits(i);
    ok := WriteNamed(buffer, str[..n], v);
  }

  /** Saves the type byte, writes the NUL-terminated name, and lets the value fill the rest. */
  method WriteNamed(buffer: Buffer, name: Bytes, v: Value) returns (ok: bool)
    requires buffer.Valid() && |name| + 1 <= MAX_INT32
    modifies buffer, buffer.data
    decreases Size(v), 2
    ensures buffer.Valid() && (buffer.data == old(buffer.data) || fresh(buffer.data))
    ensures var r := Appended(old(buffer.Contents()), EncodeValue(name + [0], AsC(v), false));
            ok == r.Some? && (ok ==> buffer.Contents() == r.value)
  {
    hide EncodeValue, Size;
    ghost var c := buffer.Contents();
    if EncodeValue(name + [0], AsC(v), false).Some? {
      ElementLength(name + [0], AsC(v));
    }
    var typeByte := buffer.SaveSpace(1);
    if typeByte == -1 {
      return false;
    }
    ghost var open := buffer.Contents();
    ok := buffer.Write(name + [0]);
    if !ok {
      return;
    }
    assert OpenSlot(buffer.Contents(), c, name + [0]) by {
      assert (open + (name + [0]))[..|c|] == c && (open + (name + [0]))[|c| + 1..] == name + [0];
    }
    ok := WriteElement(buffer, typeByte, v, c, name + [0]);
  }

  /** `write_pair`: `_id` is skipped unless allowed, because it has already been written. */
  method WritePair(buffer: Buffer, name: Bytes, v: Value, allowId: bool) returns (ok: bool)
    requires buffer.Valid() && |name| + 1 <= MAX_INT32
    modifies buffer, buffer.data
    decreases Size(v), 3
    ensures buffer.Valid() && (buffer.data == old(buffer.data) || fresh(buffer.data))
    ensures var r := Appended(old(buffer.Contents()), EncodeValue(name + [0], AsC(v), false));
            if !allowId && name == ID_KEY then ok && buffer.Contents() == old(buffer.Contents())
            else ok == r.Some? && (ok ==> buffer.Contents() == r.value)
  {
    hide EncodeValue, Size;
    if !allowId && name == ID_KEY {
      return true;
    }
    ok := WriteNamed(buffer, name, v);
  }

  /** `decode_and_write_pair`: the key must be NUL-free text. */
  method WriteField(buffer: Buffer, f: Field, topLevel: bool) returns (ok: bool)
    requires buffer.Valid()
    modifies buffer, buffer.data
    decreases Size(f.value), 4
    ensures buffer.Valid() && (buffer.data == old(buffer.data) || fresh(buffer.data))
    ensures var r := Appended(old(buffer.Contents()), EncodeElement(Field(f.key, AsC(f.value)), false));
            if topLevel && f.key == ID_KEY then ok && buffer.Contents() == old(buffer.Contents())
            else ok == r.Some? && (ok ==> buffer.Contents() == r.value)
  {
    hide EncodeValue, Size, ValidUtf8;
    IdKeyIsPlain(false);
    if CString(f.key).Some? && EncodeValue(f.key + [0], AsC(f.value), false).Some? {
      ElementLength(f.key + [0], AsC(f.value));
    }
    if !ValidUtf8(f.key) || |f.key| + 1 > MAX_INT32 || !NoNul(f.key) {
      return false;
    }
    ok := WritePair(buffer, f.key, f.value, !topLevel);
  }

  /** The end of every container: the NUL, and the length patched into the saved space. */
  method Finish(buffer: Buffer, lengthLocation: int, ghost c: Bytes, ghost open: Bytes,
                ghost body: Bytes) returns (ok: bool)
    requires buffer.Valid() && buffer.Contents() == open + body
    requires |open| == |c| + 4 && open[..|c|] == c && lengthLocation == |c|
    modifies buffer, buffer.data
    ensures buffer.Valid() && (buffer.data == old(buffer.data) || fresh(buffer.data))
    ensures var r := Appended(c, Enclose(Some(body)));
            ok == r.Some? && (ok ==> buffer.Contents() == r.value)
  {
    hide PackInt32;
    ok := buffer.Write([0]);
    if !ok {
      return;
    }
    var length := buffer.position - lengthLocation;
    ghost var saved := open[|c|..];
    assert open == c + saved && |saved| == 4;
    assert buffer.Contents() == c + saved + body + [0];
    Closed(c, saved, body);
    buffer.Patch(lengthLocation, PackInt32(length));
  }

  /** `PyDict_GetItem(dict, "_id")`. */
  method FindId(fs: Fields) returns (i: int)
    ensures i == -1 || 0 <= i < |fs|
    ensures i == -1 <==> !HasKey(fs, ID_KEY)
    ensures i >= 0 ==> fs[i].value == Get(fs, ID_KEY)
  {
    i := 0;
    assert fs[0..] == fs;
    while i < |fs|
      invariant 0 <= i <= |fs|
      invariant forall k :: 0 <= k < i ==> fs[k].key != ID_KEY
      invariant Get(fs, ID_KEY) == Get(fs[i..], ID_KEY)
    {
      assert fs[i..][1..] == fs[i + 1..];
      if fs[i].key == ID_KEY {
        return;
      }
      i := i + 1;
    }
    i := -1;
  }

  /** `write_dict`. */
  method WriteDict(buffer: Buffer, fs: Fields, topLevel: bool) returns (ok: bool)
    requires buffer.Valid()
    modifies buffer, buffer.data
    decreases SizeAll(fs), 3
    ensures buffer.Valid() && (buffer.data == old(buffer.data) || fresh(buffer.data))
    ensures var bytes := if topLevel then EncodeDocument(AsCAll(fs), false) else EncodeNested(AsCAll(fs), false);
            var r := Appended(old(buffer.Contents()), bytes);
            ok == r.Some? && (ok ==> buffer.Contents() == r.value)
  {
    hide EncodeValue, EncodeElement, PackInt32, Size, Get, HasKey, Remove, AsC, AsCAll;
    ghost var c := buffer.Contents();
    var lengthLocation := buffer.SaveSpace(4);
    if lengthLocation == -1 {
      return false;
    }
    ghost var open, first := buffer.Contents(), [];
    assert open + [] == open;
    var idAt := FindId(fs);
    AsCGet(fs, ID_KEY);
    AsCRemove(fs, ID_KEY);
    if topLevel && idAt >= 0 {
      SizeAt(fs, idAt);
      ok := WritePair(buffer, ID_KEY, fs[idAt].value, true);
      if !ok {
        return;
      }
      first := EncodeValue(ID_KEY + [0], AsC(fs[idAt].value), false).value;
    }
    ghost var body;
    ok, body := WriteFields(buffer, fs, topLevel, open, first);
    KeptId(fs, topLevel);
    ghost var rest := EncodeFields(AsCAll(Kept(fs, topLevel)), false);
    assert rest.Some? ==> [] + rest.value == rest.value;
    assert (if topLevel then EncodeDocument(AsCAll(fs), false) else EncodeNested(AsCAll(fs), false))
        == Enclose(Concat(Some(first), rest));
    if !ok {
      return;
    }
    ok := Finish(buffer, lengthLocation, c, open, body);
  }

  /** The loop of `write_dict` over the dictionary's items. */
  method WriteFields(buffer: Buffer, fs: Fields, topLevel: bool, ghost open: Bytes, ghost first: Bytes)
    returns (ok: bool, ghost body: Bytes)
    requires buffer.Valid() && buffer.Contents() == open + first
    modifies buffer, buffer.data
    decreases SizeAll(fs), 2
    ensures buffer.Valid() && (buffer.data == old(buffer.data) || fresh(buffer.data))
    ensures var r := Appended(open, Concat(Some(first), EncodeFields(AsCAll(Kept(fs, topLevel)), false)));
            && ok == r.Some?
            && (ok ==> Concat(Some(first), EncodeFields(AsCAll(Kept(fs, topLevel)),
                                                        false)) == Some(body) && buffer.Contents() == open + body)
  {
    hide EncodeElement, Size, Kept, EncodeFields, AsC, AsCAll;
    body := first;
    var k := 0;
    assert fs[0..] == fs;
    while k < |fs|
      invariant 0 <= k <= |fs| && buffer.Valid() && buffer.Contents() == open + body
      invariant buffer.data == old(buffer.data) || fresh(buffer.data)
      invariant Concat(Some(first), EncodeFields(AsCAll(Kept(fs, topLevel)), false))
                == Concat(Some(body), EncodeFields(AsCAll(Kept(fs[k..], topLevel)), false))
    {
      KeptStep(fs, k, topLevel);
      SizeAt(fs, k);
      ghost var rest := EncodeFields(AsCAll(Kept(fs[k + 1..], topLevel)), false);
      ok := WriteField(buffer, fs[k], topLevel);
      if !topLevel || fs[k].key != ID_KEY {
        if !ok {
          return;
        }
        ghost var e := EncodeElement(Field(fs[k].key, AsC(fs[k].value)), false).value;
        ConcatAssoc(body, e, rest);
        assert open + body + e == open + (body + e);
        body := body + e;
      }
      k := k + 1;
    }
    ok := true;
    NothingKept(topLevel);
    assert fs[k..] == [] && body + [] == body;
  }

  lemma {:induction false} NothingKept(topLevel: bool)
    ensures EncodeFields(AsCAll(Kept([], topLevel)), false) == Some([])
  {
  }

  /** What the loop of `write_dict` does with one item: skips `_id` at the top level, else encodes it. */
  lemma {:induction false} KeptStep(fs: Fields, k: nat, topLevel: bool)
    requires k < |fs|
    ensures EncodeFields(AsCAll(Kept(fs[k..], topLevel)), false)
            == if topLevel && fs[k].key == ID_KEY then EncodeFields(AsCAll(Kept(fs[k + 1..], topLevel)), false)
               else Concat(EncodeElement(Field(fs[k].key, AsC(fs[k].value)), false),
                           EncodeFields(AsCAll(Kept(fs[k + 1..], topLevel)), false))
  {
    hide EncodeElement;
    assert fs[k..][1..] == fs[k + 1..];
    if !topLevel || fs[k].key != ID_KEY {
      var rest := Kept(fs[k + 1..], topLevel);
      assert Kept(fs[k..], topLevel) == [fs[k]] + rest;
      assert ([fs[k]] + rest)[1..] == rest;
    }
  }

  /** `_cbson._dict_to_bson`: a document written into a new buffer.  For every document that the
      Python encoder accepts the result is the Python encoder's if and only if nothing differs. */
  method DictToBson(fs: Fields) returns (r: Option<Bytes>)
    ensures r == EncodeDocument(AsCAll(fs), false)
    ensures WellTypedAll(fs) && SameInCAll(fs) ==> r == EncodeDocument(fs, false)
    ensures WellTypedAll(fs) && EncodeDocument(fs, false).Some? ==> (r == EncodeDocument(fs, false) <==> SameInCAll(fs))
  {
    hide EncodeDocument, AsCAll, SameInCAll, WellTypedAll;
    var buffer := new Buffer();
    var ok := WriteDict(buffer, fs, true);
    ghost var bytes := EncodeDocument(AsCAll(fs), false);
    assert bytes.Some? ==> [] + bytes.value == bytes.value;
    if WellTypedAll(fs) {
      SameDocumentIff(fs);
    }
    return if ok then Some(buffer.data[..buffer.position]) else None;
  }
}
