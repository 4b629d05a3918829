/**
 The pure-Python encoder of bson/__init__.py.  Encoding fails (`None`) where the source raises:
 keys with NUL or invalid text, lengths that do not fit an int32, integers that do not fit 64 bits.
 */
module Encoder {
  import opened Bytes
  import opened Bson

  /** `_make_name`, and `_make_c_string_check` for patterns. */
  function CString(s: Bytes): (r: Option<Bytes>)
  {
    if NoNul(s) && ValidUtf8(s) then Some(s + [0]) else None
  }

  /** The `check_keys` test: no leading '$', no '.'. */
  predicate KeyAllowed(key: Bytes, checkKeys: bool)
  {
    checkKeys ==> (key == [] || key[0] != 0x24) && 0x2e !in key
  }

  /** Length, elements, NUL: shared by every document-shaped encoding. */
  function Enclose(elements: Option<Bytes>): (r: Option<Bytes>)
    ensures r.Some? ==> 5 <= |r.value| <= MAX_INT32
  {
    if elements.None? || |elements.value| + 5 > MAX_INT32 then None
    else Some(PackInt32(|elements.value| + 5) + elements.value + [0])
  }

  /** Length-prefixed, NUL-terminated text. */
  function EncodeText(s: Bytes): (r: Option<Bytes>)
  {
    if ValidUtf8(s) && |s| + 1 <= MAX_INT32 then Some(PackInt32(|s| + 1) + s + [0]) else None
  }

  function EncodeBinary(data: Bytes, subtype: byte): (r: Option<Bytes>)
  {
    if |data| > MAX_INT32 - 4 && subtype == 2 then None
    else if |data| > MAX_INT32 then None
    else
      var value := if subtype == 2 then PackInt32(|data|) + data else data;
      Some(PackInt32(|value|) + [subtype] + value)
  }

  function EncodeFlags(flags: nat): (r: Bytes)
  {
    if flags == UNICODE then [0x75, 0]
    else if flags == 0 then [0]
    else FlagLetters(flags) + [0]
  }

  /** The shortcuts for one flag and for none write the same letters. */
  lemma {:induction false} FlagBytes(flags: nat)
    ensures EncodeFlags(flags) == FlagLetters(flags) + [0]
    ensures |FlagLetters(flags)| <= 6
  {
    assert FlagLetters(0) == [];
    assert FlagLetters(UNICODE) == [0x75];
  }

  function EncodeRegex(pattern: Bytes, flags: nat): (r: Option<Bytes>)
  {
    var p := CString(pattern);
    if p.None? then None else Some(p.value + EncodeFlags(flags))
  }

  function Concat(a: Option<Bytes>, b: Option<Bytes>): (r: Option<Bytes>)
  {
    if a.None? || b.None? then None else Some(a.value + b.value)
  }

  function Tagged(t: byte, name: Bytes, payload: Option<Bytes>): (r: Option<Bytes>)
  {
    if payload.None? then None else Some([t] + name + payload.value)
  }

  /** `_name_value_to_bson`: one element, `name` already NUL-terminated. */
  function EncodeValue(name: Bytes, v: Value, checkKeys: bool): (r: Option<Bytes>)
    decreases v, 1
  {
    match v
    case Float(bits) => Some([0x01] + name + bits)
    case Text(s) => Tagged(0x02, name, EncodeText(s))
    case Mapping(fs) => Tagged(0x03, name, Enclose(EncodeFields(fs, checkKeys)))
    case List(items) => Tagged(0x04, name, Enclose(EncodeItems(items, 0, checkKeys)))
    case RawBytes(data) => Tagged(0x05, name, EncodeBinary(data, 0))
    case Binary(data, subtype) => Tagged(0x05, name, EncodeBinary(data, subtype))
    case ObjectId(oid) => Some([0x07] + name + oid)
    case Bool(b) => Some([0x08] + name + [if b then 1 else 0])
    case DatetimeMs(ms) => Some([0x09] + name + PackInt64(ms))
    case Null => Some([0x0a] + name)
    case Regex(pattern, flags) => Tagged(0x0b, name, EncodeRegex(pattern, flags))
    case Code(code) => Tagged(0x0d, name, EncodeText(code))
    case CodeWithScope(code, scope) =>
      var body := Concat(EncodeText(code), Enclose(EncodeFields(scope, false)));
      if body.None? || |body.value| + 4 > MAX_INT32 then None
      else Some([0x0f] + name + (PackInt32(|body.value| + 4) + body.value))
    case Int(n) =>
      if IsInt32(n) then Some([0x10] + name + PackInt32(n))
      else if IsInt64(n) then Some([0x12] + name + PackInt64(n))
      else None
    case Timestamp(time, inc) => Some([0x11] + name + (Le(inc, 4) + Le(time, 4)))
    case Int64(n) => if IsInt64(n) then Some([0x12] + name + PackInt64(n)) else None
    case Decimal128(bid) => Some([0x13] + name + bid)
    case MinKey => Some([0xff] + name)
    case MaxKey => Some([0x7f] + name)
    case DBRef(_, _, _, _) => Tagged(0x03, name, Enclose(EncodeRefElements(v, checkKeys)))
  }

  /** The elements of a DBRef's document: `$ref`, `$id`, `$db` unless None, then the extra fields. */
  function EncodeRefElements(v: Value, checkKeys: bool): (r: Option<Bytes>)
    requires v.DBRef?
    decreases v, 0
  {
    var ref := EncodeValue(REF_KEY + [0], v.collection, checkKeys);
    var rid := EncodeValue(DOLLAR_ID_KEY + [0], v.id, checkKeys);
    var db := if v.database.Null? then Some([]) else EncodeValue(DB_KEY + [0], v.database, checkKeys);
    Concat(Concat(Concat(ref, rid), db), EncodeFields(v.extra, checkKeys))
  }

  /** `_element_to_bson`. */
  function EncodeElement(f: Field, checkKeys: bool): (r: Option<Bytes>)
    decreases f
  {
    var name := CString(f.key);
    if name.None? || !KeyAllowed(f.key, checkKeys) then None
    else EncodeValue(name.value, f.value, checkKeys)
  }

  function EncodeFields(fs: Fields, checkKeys: bool): (r: Option<Bytes>)
    decreases fs
  {
    if fs == [] then Some([])
    else Concat(EncodeElement(fs[0], checkKeys), EncodeFields(fs[1..], checkKeys))
  }

  /** The elements of a list from index `i` on, named by their decimal index. */
  function EncodeItems(items: seq<Value>, i: nat, checkKeys: bool): (r: Option<Bytes>)
    decreases items
  {
    if items == [] then Some([])
    else Concat(EncodeValue(Digits(i) + [0], items[0], checkKeys), EncodeItems(items[1..], i + 1, checkKeys))
  }

  /** `_dict_to_bson(doc, check_keys, opts, top_level=False)`. */
  function EncodeNested(fs: Fields, checkKeys: bool): (r: Option<Bytes>)
    ensures r.Some? ==> 5 <= |r.value| <= MAX_INT32
  {
    Enclose(EncodeFields(fs, checkKeys))
  }

  /** `_dict_to_bson(doc, check_keys, opts)`: `_id` is written first and skipped afterwards. */
  function EncodeDocument(fs: Fields, checkKeys: bool): (r: Option<Bytes>)
    ensures r.Some? ==> 5 <= |r.value| <= MAX_INT32
  {
    if HasKey(fs, ID_KEY) then
      Enclose(Concat(EncodeValue(ID_KEY + [0], Get(fs, ID_KEY), checkKeys),
                     EncodeFields(Remove(fs, ID_KEY), checkKeys)))
    else EncodeNested(fs, checkKeys)
  }

  lemma {:induction false} IdKeyIsPlain(checkKeys: bool)
    ensures CString(ID_KEY) == Some(ID_KEY + [0]) && KeyAllowed(ID_KEY, checkKeys)
  {
    AsciiIsUtf8(ID_KEY);
  }

  /** The top-level encoding is the nested encoding of the document with `_id` moved first. */
  lemma {:induction false} EncodeDocumentIsIdFirst(fs: Fields, checkKeys: bool)
    ensures EncodeDocument(fs, checkKeys) == EncodeNested(IdFirst(fs), checkKeys)
  {
    if HasKey(fs, ID_KEY) {
      IdKeyIsPlain(checkKeys);
      var first := Field(ID_KEY, Get(fs, ID_KEY));
      assert IdFirst(fs)[1..] == Remove(fs, ID_KEY);
      assert EncodeElement(first, checkKeys) == EncodeValue(ID_KEY + [0], first.value, checkKeys);
    }
  }

  /** An encoded document starts with its own length. */
  lemma {:induction false} DeclaresItsLength(fs: Fields)
    requires EncodeDocument(fs, false).Some?
    ensures var d := EncodeDocument(fs, false).value; d[..4] == PackInt32(|d|) && UnpackInt32(d[..4]) == |d|
  {
    hide UnpackInt32, PackInt32, EncodeFields, EncodeValue;
    var d := EncodeDocument(fs, false).value;
    assert d[..4] == PackInt32(|d|);
    Int32RoundTrip(|d|);
  }

  lemma {:induction false} EncodeFieldsAppend(a: Fields, b: Fields, checkKeys: bool)
    ensures EncodeFields(a + b, checkKeys) == Concat(EncodeFields(a, checkKeys), EncodeFields(b, checkKeys))
  {
    hide EncodeElement;
    if a == [] {
      assert a + b == b;
      var rest := EncodeFields(b, checkKeys);
      if rest.Some? {
        assert [] + rest.value == rest.value;
      }
    } else {
      EncodeFieldsAppend(a[1..], b, checkKeys);
      assert (a + b)[1..] == a[1..] + b;
      assert (a + b)[0] == a[0];
      var first, rest := EncodeElement(a[0], checkKeys), EncodeFields(a[1..], checkKeys);
      if first.Some? && rest.Some? {
        ConcatAssoc(first.value, rest.value, EncodeFields(b, checkKeys));
      }
    }
  }

  // ---- the two encoders that grow a buffer ----------------------------------------------

  lemma {:induction false} ConcatAssoc(a: Bytes, b: Bytes, c: Option<Bytes>)
    ensures Concat(Some(a), Concat(Some(b), c)) == Concat(Some(a + b), c)
  {
    if c.Some? {
      assert a + (b + c.value) == (a + b) + c.value;
    }
  }

  lemma {:induction false} DBRefUnfolds(name: Bytes, v: Value, checkKeys: bool)
    requires v.DBRef?
    ensures EncodeValue(name, v, checkKeys) == Tagged(0x03, name, Enclose(EncodeRefElements(v, checkKeys)))
  {
  }

  /** Writing the length over the four bytes reserved after `prefix`. */
  lemma {:induction false} PatchedLength(prefix: Bytes, body: Bytes, length: Bytes)
    requires |length| == 4
    ensures var buf := prefix + [0, 0, 0, 0] + body + [0];
            buf[..|prefix|] + length + buf[|prefix| + 4..] == prefix + (length + body + [0])
  {
    var buf := prefix + [0, 0, 0, 0] + body + [0];
    assert buf[..|prefix|] == prefix;
    assert buf[|prefix| + 4..] == body + [0];
  }

  /** `_encode_dbref`: reserves four bytes, appends, and patches the length in at the end. */
  method EncodeDBRef(name: Bytes, v: Value, checkKeys: bool) returns (r: Option<Bytes>)
    requires v.DBRef?
    ensures r == EncodeValue(name, v, checkKeys)
  {
    DBRefUnfolds(name, v, checkKeys);
    hide EncodeValue, EncodeElement, EncodeFields, Enclose, Tagged;
    var buf := [0x03] + name + [0, 0, 0, 0];
    var begin := |buf| - 4;
    ghost var head := buf;
    var ref := EncodeValue(REF_KEY + [0], v.collection, checkKeys);
    if ref.None? {
      return None;
    }
    buf := buf + ref.value;
    var rid := EncodeValue(DOLLAR_ID_KEY + [0], v.id, checkKeys);
    if rid.None? {
      return None;
    }
    buf := buf + rid.value;
    var db: Option<Bytes> := Some([]);
    if !v.database.Null? {
      db := EncodeValue(DB_KEY + [0], v.database, checkKeys);
      if db.None? {
        return None;
      }
      buf := buf + db.value;
    }
    ghost var prefix := ref.value + rid.value + db.value;
    assert buf == head + prefix;
    var whole := AppendElements(buf, v.extra, checkKeys);
    if whole.None? {
      return None;
    }
    ghost var body := prefix + EncodeFields(v.extra, checkKeys).value;
    assert head + prefix + EncodeFields(v.extra, checkKeys).value == head + body;
    r := PatchLength(name, whole.value, begin, body);
  }

  /** Ends the document and patches its length in at `begin`. */
  method PatchLength(name: Bytes, start: Bytes, begin: nat, ghost body: Bytes) returns (r: Option<Bytes>)
    requires start == [0x03] + name + [0, 0, 0, 0] + body && begin == |name| + 1
    ensures r == Tagged(0x03, name, Enclose(Some(body)))
  {
    hide PackInt32;
    var buf := start + [0];
    if |buf| - begin > MAX_INT32 {
      return None;
    }
    PatchedLength([0x03] + name, body, PackInt32(|buf| - begin));
    buf := buf[..begin] + PackInt32(|buf| - begin) + buf[begin + 4..];
    return Some(buf);
  }

  /** The loop over the extra fields. */
  method AppendElements(start: Bytes, fs: Fields, checkKeys: bool) returns (r: Option<Bytes>)
    ensures r == Concat(Some(start), EncodeFields(fs, checkKeys))
  {
    hide EncodeElement;
    var buf := start;
    var k := 0;
    while k < |fs|
      invariant k <= |fs|
      invariant Concat(Some(start), EncodeFields(fs, checkKeys)) == Concat(Some(buf), EncodeFields(fs[k..], checkKeys))
    {
      var part := EncodeElement(fs[k], checkKeys);
      assert fs[k..][1..] == fs[k + 1..];
      if part.None? {
        return None;
      }
      ConcatAssoc(buf, part.value, EncodeFields(fs[k + 1..], checkKeys));
      buf := buf + part.value;
      k := k + 1;
    }
    assert buf + [] == buf;
    return Some(buf);
  }

  /** `_dict_to_bson`: collects the encoded elements and joins them. */
  method DictToBson(fs: Fields, checkKeys: bool, topLevel: bool) returns (r: Option<Bytes>)
    ensures r == if topLevel then EncodeDocument(fs, checkKeys) else EncodeNested(fs, checkKeys)
  {
    hide EncodeValue, EncodeElement, Get, HasKey;
    var elements: Bytes := [];
    var skipId := topLevel && HasKey(fs, ID_KEY);
    if skipId {
      var first := EncodeValue(ID_KEY + [0], Get(fs, ID_KEY), checkKeys);
      if first.None? {
        return None;
      }
      elements := first.value;
    }
    ghost var prefix := elements;
    ghost var kept := Kept(fs, topLevel);
    var k := 0;
    assert fs[0..] == fs;
    while k < |fs|
      invariant k <= |fs|
      invariant Concat(Some(prefix), EncodeFields(kept, checkKeys))
                == Concat(Some(elements), EncodeFields(Kept(fs[k..], topLevel), checkKeys))
    {
      assert fs[k..][1..] == fs[k + 1..];
      if !topLevel || fs[k].key != ID_KEY {
        assert Kept(fs[k..], topLevel) == [fs[k]] + Kept(fs[k + 1..], topLevel);
        var element := EncodeElement(fs[k], checkKeys);
        if element.None? {
          KeptId(fs, topLevel);
          return None;
        }
        ConcatAssoc(elements, element.value, EncodeFields(Kept(fs[k + 1..], topLevel), checkKeys));
        elements := elements + element.value;
      } else {
        assert Kept(fs[k..], topLevel) == Kept(fs[k + 1..], topLevel);
      }
      k := k + 1;
    }
    KeptId(fs, topLevel);
    assert elements + [] == elements;
    assert skipId ==> EncodeValue(ID_KEY + [0], Get(fs, ID_KEY), checkKeys) == Some(prefix);
    assert !skipId ==> forall x: Bytes :: [] + x == x;
    if |elements| + 5 > MAX_INT32 {
      return None;
    }
    return Some(PackInt32(|elements| + 5) + elements + [0]);
  }

  /** The fields the loop of `_dict_to_bson` does not skip. */
  ghost function Kept(fs: Fields, topLevel: bool): (r: Fields)
  {
    if topLevel then Remove(fs, ID_KEY) else fs
  }

  lemma {:induction false} KeptId(fs: Fields, topLevel: bool)
    ensures !(topLevel && HasKey(fs, ID_KEY)) ==> Kept(fs, topLevel) == fs
  {
    if topLevel && !HasKey(fs, ID_KEY) {
      RemoveAbsent(fs, ID_KEY);
    }
  }
}
