/**
 Exactly what the encoder of bson/__init__.py refuses, told without it: by the text of keys and
 strings, by ranges, and by the number of bytes a value needs; and what `check_keys` adds to that.
 */
module Refusals {
  import opened Bytes
  import opened Bson
  import opened Encoder

  // ---- how many bytes a value needs -----------------------------------------------------

  /** The bytes of a value, without its type byte and name. */
  function Length(v: Value): (n: nat)
    decreases v, 1
  {
    match v
    case Float(_) => 8
    case Text(s) => |s| + 5
    case Mapping(fs) => 5 + LengthAll(fs)
    case List(items) => 5 + LengthItems(items, 0)
    case RawBytes(data) => |data| + 5
    case Binary(data, subtype) => |data| + if subtype == 2 then 9 else 5
    case ObjectId(_) => 12
    case Bool(_) => 1
    case DatetimeMs(_) => 8
    case Null => 0
    case Regex(pattern, flags) => |pattern| + |FlagLetters(flags)| + 2
    case Code(code) => |code| + 5
    case CodeWithScope(code, scope) => |code| + 14 + LengthAll(scope)
    case Int(n) => if -0x8000_0000 <= n < 0x8000_0000 then 4 else 8
    case Int64(_) => 8
    case Timestamp(_, _) => 8
    case Decimal128(_) => 16
    case MinKey => 0
    case MaxKey => 0
    case DBRef(c, id, db, extra) =>
      5 + (6 + Length(c)) + (5 + Length(id)) + (if db.Null? then 0 else 5 + Length(db)) + LengthAll(extra)
  }

  function LengthAll(fs: Fields): (n: nat)
    decreases fs, 0
  {
    if fs == [] then 0 else 2 + |fs[0].key| + Length(fs[0].value) + LengthAll(fs[1..])
  }

  function LengthItems(items: seq<Value>, i: nat): (n: nat)
    decreases items, 0
  {
    if items == [] then 0 else 2 + |Digits(i)| + Length(items[0]) + LengthItems(items[1..], i + 1)
  }

  // ---- what can be written --------------------------------------------------------------

  predicate NameOk(key: Bytes) { 0 !in key && ValidUtf8(key) }

  /** Text is valid and fits its length field, integers fit 64 bits, patterns and keys hold no NUL, and
      every document, array, binary and code with scope is shorter than 2 GiB. */
  predicate Writable(v: Value)
    decreases v, 1
  {
    match v
    case Text(s) => ValidUtf8(s) && |s| < 0x7fff_ffff
    case Code(s) => ValidUtf8(s) && |s| < 0x7fff_ffff
    case Mapping(fs) => WritableAll(fs) && Length(v) < 0x8000_0000
    case List(items) => WritableItems(items) && Length(v) < 0x8000_0000
    case RawBytes(data) => |data| < 0x8000_0000
    case Binary(data, subtype) => |data| < if subtype == 2 then 0x7fff_fffc else 0x8000_0000
    case Regex(pattern, _) => NameOk(pattern)
    case CodeWithScope(code, scope) => ValidUtf8(code) && WritableAll(scope) && Length(v) < 0x8000_0000
    case Int(n) => IsInt64(n)
    case Int64(n) => IsInt64(n)
    case DBRef(c, id, db, extra) =>
      Writable(c) && Writable(id) && Writable(db) && WritableAll(extra) && Length(v) < 0x8000_0000
    case _ => true
  }

  predicate WritableAll(fs: Fields)
    decreases fs, 0
  {
    fs != [] ==> NameOk(fs[0].key) && Writable(fs[0].value) && WritableAll(fs[1..])
  }

  predicate WritableItems(items: seq<Value>)
    decreases items, 0
  {
    items != [] ==> Writable(items[0]) && WritableItems(items[1..])
  }

  /** `r` is there exactly if `ok`, and then has `n` bytes. */
  ghost predicate Tells(r: Option<Bytes>, ok: bool, n: nat)
  {
    (r.Some? <==> ok) && (r.Some? ==> |r.value| == n)
  }

  /** A value of any depth is encoded if and only if it is writable, and takes the bytes counted. */
  lemma {:induction false} EncodesIff(name: Bytes, v: Value)
    ensures Tells(EncodeValue(name, v, false), Writable(v), 1 + |name| + Length(v))
    decreases v, 1
  {
    hide EncodeFields, EncodeItems, EncodeRefElements, WritableAll, WritableItems, LengthAll, LengthItems, ValidUtf8,
         EncodeBinary, EncodeRegex, PackInt32, PackInt64, FlagLetters, NameOk;
    match v
    case Mapping(fs) => FieldsEncodeIff(fs);
    case List(items) => ItemsEncodeIff(items, 0);
    case CodeWithScope(_, scope) => FieldsEncodeIff(scope);
    case DBRef(_, _, _, _) => RefEncodesIff(v);
    case _ => LeafEncodesIff(name, v);
  }

  lemma {:induction false} LeafEncodesIff(name: Bytes, v: Value)
    requires IsLeaf(v)
    ensures Tells(EncodeValue(name, v, false), Writable(v), 1 + |name| + Length(v))
  {
    hide EncodeFields, EncodeItems, EncodeRefElements, WritableAll, WritableItems, LengthAll, LengthItems, FlagLetters;
    if v.Regex? {
      FlagBytes(v.flags);
    }
  }

  lemma {:induction false} FieldsEncodeIff(fs: Fields)
    ensures Tells(EncodeFields(fs, false), WritableAll(fs), LengthAll(fs))
    decreases fs, 0
  {
    hide EncodeValue, Writable, Length, ValidUtf8;
    if fs != [] {
      EncodesIff(fs[0].key + [0], fs[0].value);
      FieldsEncodeIff(fs[1..]);
    }
  }

  lemma {:induction false} ItemsEncodeIff(items: seq<Value>, i: nat)
    ensures Tells(EncodeItems(items, i, false), WritableItems(items), LengthItems(items, i))
    decreases items, 0
  {
    hide EncodeValue, Writable, Length, Digits;
    if items != [] {
      EncodesIff(Digits(i) + [0], items[0]);
      ItemsEncodeIff(items[1..], i + 1);
    }
  }

  lemma {:induction false} RefEncodesIff(v: Value)
    requires v.DBRef?
    ensures Tells(EncodeRefElements(v, false),
                  Writable(v.collection) && Writable(v.id) && Writable(v.database) && WritableAll(v.extra),
                  Length(v) - 5)
    decreases v, 0
  {
    hide EncodeValue, Writable, WritableAll, LengthAll;
    EncodesIff(REF_KEY + [0], v.collection);
    EncodesIff(DOLLAR_ID_KEY + [0], v.id);
    EncodesIff(DB_KEY + [0], v.database);
    FieldsEncodeIff(v.extra);
    NullIsWritable();
  }

  lemma {:induction false} NullIsWritable()
    ensures Writable(Null)
  {
  }

  /** A whole document, nested or at the top, is refused exactly if a field is not writable or it would
      be 2 GiB long. */
  lemma {:induction false} DocumentEncodesIff(fs: Fields)
    ensures Tells(EncodeNested(fs, false), WritableAll(fs) && 5 + LengthAll(fs) < 0x8000_0000, 5 + LengthAll(fs))
    ensures Distinct(fs) ==>
              Tells(EncodeDocument(fs, false), WritableAll(fs) && 5 + LengthAll(fs) < 0x8000_0000, 5 + LengthAll(fs))
  {
    hide EncodeFields, Length, Writable, EncodeDocument, IdFirst;
    FieldsEncodeIff(fs);
    if Distinct(fs) {
      FieldsEncodeIff(IdFirst(fs));
      EncodeDocumentIsIdFirst(fs, false);
      IdFirstKeeps(fs);
    }
  }

  lemma {:induction false} LengthAllSplit(a: Fields, b: Fields)
    ensures LengthAll(a + b) == LengthAll(a) + LengthAll(b)
    ensures WritableAll(a + b) <==> WritableAll(a) && WritableAll(b)
  {
    hide Length, Writable;
    if a == [] {
      assert a + b == b;
    } else {
      LengthAllSplit(a[1..], b);
      assert (a + b)[1..] == a[1..] + b;
      assert (a + b)[0] == a[0];
    }
  }

  /** Moving one field to the front changes neither. */
  lemma {:induction false} IdFirstKeeps(fs: Fields)
    requires Distinct(fs)
    ensures LengthAll(IdFirst(fs)) == LengthAll(fs) && (WritableAll(IdFirst(fs)) <==> WritableAll(fs))
  {
    hide LengthAll, WritableAll, Remove, Get;
    if HasKey(fs, ID_KEY) {
      var i :| 0 <= i < |fs| && fs[i].key == ID_KEY;
      GetAt(fs, i);
      RemoveSplits(fs, i);
      FrontKeeps(fs, i);
    }
  }

  lemma {:induction false} FrontKeeps(fs: Fields, i: nat)
    requires i < |fs|
    ensures var r := [fs[i]] + (fs[..i] + fs[i + 1..]);
            LengthAll(r) == LengthAll(fs) && (WritableAll(r) <==> WritableAll(fs))
  {
    hide LengthAll, WritableAll;
    assert fs == fs[..i] + ([fs[i]] + fs[i + 1..]);
    LengthAllSplit(fs[..i], [fs[i]] + fs[i + 1..]);
    LengthAllSplit([fs[i]], fs[i + 1..]);
    LengthAllSplit([fs[i]], fs[..i] + fs[i + 1..]);
    LengthAllSplit(fs[..i], fs[i + 1..]);
  }

  lemma {:induction false} RemoveSplits(fs: Fields, i: nat)
    requires Distinct(fs) && i < |fs|
    ensures Remove(fs, fs[i].key) == fs[..i] + fs[i + 1..]
  {
    if i == 0 {
      assert !HasKey(fs[1..], fs[0].key);
      RemoveAbsent(fs[1..], fs[0].key);
      assert fs[..0] + fs[1..] == fs[1..];
    } else {
      assert fs[0].key != fs[i].key;
      RemoveSplits(fs[1..], i - 1);
      assert fs[1..][..i - 1] == fs[1..i] && fs[1..][i..] == fs[i + 1..];
      assert [fs[0]] + (fs[1..i] + fs[i + 1..]) == fs[..i] + fs[i + 1..];
    }
  }

  // ---- check_keys -----------------------------------------------------------------------

  /** No leading dollar sign and no dot. */
  predicate CleanKey(key: Bytes)
  {
    (key != [] ==> key[0] as char != '$') && forall i :: 0 <= i < |key| ==> key[i] as char != '.'
  }

  /** Every key that `check_keys` looks at is clean: not those of a Code scope, which is written without
      the check, nor the three of a DBRef itself. */
  predicate Clean(v: Value)
    decreases v, 1
  {
    match v
    case Mapping(fs) => CleanAll(fs)
    case List(items) => CleanItems(items)
    case DBRef(c, id, db, extra) => Clean(c) && Clean(id) && Clean(db) && CleanAll(extra)
    case _ => true
  }

  predicate CleanAll(fs: Fields)
    decreases fs, 0
  {
    fs != [] ==> CleanKey(fs[0].key) && Clean(fs[0].value) && CleanAll(fs[1..])
  }

  predicate CleanItems(items: seq<Value>)
    decreases items, 0
  {
    items != [] ==> Clean(items[0]) && CleanItems(items[1..])
  }

  function Only(clean: bool, r: Option<Bytes>): (s: Option<Bytes>) { if clean then r else None }

  /** `check_keys` refuses the values with an unclean key and changes nothing else. */
  lemma {:induction false} CheckKeysOnlyRefuses(name: Bytes, v: Value)
    ensures EncodeValue(name, v, true) == Only(Clean(v), EncodeValue(name, v, false))
    decreases v, 1
  {
    match v
    case Mapping(fs) => CheckedFields(fs);
    case List(items) => CheckedItems(items, 0);
    case DBRef(_, _, _, _) => CheckedRef(v);
    case _ =>
  }

  lemma {:induction false} AllowedIsClean(key: Bytes)
    ensures KeyAllowed(key, true) <==> CleanKey(key)
    ensures KeyAllowed(key, false)
  {
  }

  lemma {:induction false} CheckedFields(fs: Fields)
    ensures EncodeFields(fs, true) == Only(CleanAll(fs), EncodeFields(fs, false))
    decreases fs, 0
  {
    hide EncodeValue, Clean, CleanKey, KeyAllowed, CString;
    if fs != [] {
      AllowedIsClean(fs[0].key);
      var name := CString(fs[0].key);
      if name.Some? {
        CheckKeysOnlyRefuses(name.value, fs[0].value);
      }
      CheckedFields(fs[1..]);
    }
  }

  lemma {:induction false} CheckedItems(items: seq<Value>, i: nat)
    ensures EncodeItems(items, i, true) == Only(CleanItems(items), EncodeItems(items, i, false))
    decreases items, 0
  {
    hide EncodeValue, Clean, Digits;
    if items != [] {
      CheckKeysOnlyRefuses(Digits(i) + [0], items[0]);
      CheckedItems(items[1..], i + 1);
    }
  }

  lemma {:induction false} CheckedRef(v: Value)
    requires v.DBRef?
    ensures EncodeRefElements(v, true) == Only(Clean(v), EncodeRefElements(v, false))
    decreases v, 0
  {
    hide EncodeValue, CleanAll;
    CheckKeysOnlyRefuses(REF_KEY + [0], v.collection);
    CheckKeysOnlyRefuses(DOLLAR_ID_KEY + [0], v.id);
    CheckKeysOnlyRefuses(DB_KEY + [0], v.database);
    CheckedFields(v.extra);
  }
}
