/**
 The values PyMongo's codec reads and writes, and the Python dictionary operations it uses on
 documents.  Text is kept as its UTF-8 bytes, doubles as their eight bytes.  The codec options
 are the defaults except that datetimes are decoded as `DatetimeMS`; there is no type registry.
 */
module Bson {
  import opened Bytes

  type Word8 = s: Bytes | |s| == 8 witness [0, 0, 0, 0, 0, 0, 0, 0]
  type Word12 = s: Bytes | |s| == 12 witness [0, 0, 0, 0, 0, 0, 0, 0, 0, 0, 0, 0]
  type Word16 = s: Bytes | |s| == 16 witness [0, 0, 0, 0, 0, 0, 0, 0, 0, 0, 0, 0, 0, 0, 0, 0]

  // Ranges the Python constructors enforce.
  type uint32 = n: int | IsUint32(n)
  type int64 = n: int | IsInt64(n)

  datatype Field = Field(key: Bytes, value: Value)

  type Fields = seq<Field>

  /** One constructor per Python type the encoder dispatches on. */
  datatype Value =
    | Float(bits: Word8)
    | Text(utf8: Bytes)
    | Mapping(fields: Fields)
    | List(items: seq<Value>)
    | RawBytes(data: Bytes)
    | Binary(data: Bytes, subtype: byte)
    | ObjectId(oid: Word12)
    | Bool(b: bool)
    | DatetimeMs(millis: int64)
    | Null
    | Regex(pattern: Bytes, flags: nat)
    | Code(code: Bytes)
    | CodeWithScope(code: Bytes, scope: Fields)
    | Int(n: int)
    | Int64(n: int)
    | Timestamp(time: uint32, inc: uint32)
    | Decimal128(bid: Word16)
    | MinKey
    | MaxKey
      // collection is a str (or its subclass Code), database a str or None
    | DBRef(collection: Value, id: Value, database: Value, extra: Fields)

  /** A value that holds no other. */
  predicate IsLeaf(v: Value) { !v.Mapping? && !v.List? && !v.CodeWithScope? && !v.DBRef? }

  // ASCII spellings of the field names the codec treats specially.
  const ID_KEY: Bytes := [0x5f, 0x69, 0x64]              // _id
  const REF_KEY: Bytes := [0x24, 0x72, 0x65, 0x66]       // $ref
  const DOLLAR_ID_KEY: Bytes := [0x24, 0x69, 0x64]       // $id
  const DB_KEY: Bytes := [0x24, 0x64, 0x62]              // $db

  // ---- UTF-8 (RFC 3629) -----------------------------------------------------------------

  predicate Continuation(b: byte) { 0x80 <= b < 0xc0 }

  /** Length of the well-formed UTF-8 sequence at the head of `s`, or 0. */
  function Utf8Head(s: Bytes): (n: nat)
    requires s != []
    ensures n <= |s|
  {
    if s[0] < 0x80 then 1
    else if 0xc2 <= s[0] < 0xe0 then
      if |s| >= 2 && Continuation(s[1]) then 2 else 0
    else if 0xe0 <= s[0] < 0xf0 then
      if |s| >= 3 && Continuation(s[1]) && Continuation(s[2])
         && (s[0] == 0xe0 ==> s[1] >= 0xa0) && (s[0] == 0xed ==> s[1] < 0xa0) then 3 else 0
    else if 0xf0 <= s[0] < 0xf5 then
      if |s| >= 4 && Continuation(s[1]) && Continuation(s[2]) && Continuation(s[3])
         && (s[0] == 0xf0 ==> s[1] >= 0x90) && (s[0] == 0xf4 ==> s[1] < 0x90) then 4 else 0
    else 0
  }

  predicate ValidUtf8(s: Bytes)
  {
    s == [] || (Utf8Head(s) > 0 && ValidUtf8(s[Utf8Head(s)..]))
  }

  lemma {:induction false} AsciiIsUtf8(s: Bytes)
    requires forall i :: 0 <= i < |s| ==> s[i] < 0x80
    ensures ValidUtf8(s)
  {
    if s != [] {
      AsciiIsUtf8(s[1..]);
    }
  }

  // ---- dictionaries ---------------------------------------------------------------------

  predicate HasKey(fs: Fields, key: Bytes)
  {
    exists i :: 0 <= i < |fs| && fs[i].key == key
  }

  predicate Distinct(fs: Fields)
  {
    forall i, j :: 0 <= i < j < |fs| ==> fs[i].key != fs[j].key
  }

  /** `d.get(key)`: a missing key reads as None. */
  function Get(fs: Fields, key: Bytes): (v: Value)
  {
    if fs == [] then Null
    else if fs[0].key == key then fs[0].value
    else Get(fs[1..], key)
  }

  /** `d[key] = v`: replaces in place, or appends. */
  function Put(fs: Fields, key: Bytes, v: Value): (r: Fields)
  {
    if fs == [] then [Field(key, v)]
    else if fs[0].key == key then [Field(key, v)] + fs[1..]
    else [fs[0]] + Put(fs[1..], key, v)
  }

  /** `d.pop(key, None)` seen as what it leaves behind. */
  function Remove(fs: Fields, key: Bytes): (r: Fields)
    ensures !HasKey(r, key)
    ensures |r| <= |fs|
  {
    if fs == [] then []
    else if fs[0].key == key then Remove(fs[1..], key)
    else [fs[0]] + Remove(fs[1..], key)
  }

  /** The element order the top-level encoder uses: `_id` first. */
  function IdFirst(fs: Fields): (r: Fields)
  {
    if HasKey(fs, ID_KEY) then [Field(ID_KEY, Get(fs, ID_KEY))] + Remove(fs, ID_KEY) else fs
  }

  lemma {:induction false} PutNew(fs: Fields, key: Bytes, v: Value)
    requires !HasKey(fs, key)
    ensures Put(fs, key, v) == fs + [Field(key, v)]
  {
    if fs != [] {
      assert fs[0].key != key;
      assert !HasKey(fs[1..], key) by {
        assert forall i :: 0 <= i < |fs[1..]| ==> fs[1..][i] == fs[i + 1];
      }
      PutNew(fs[1..], key, v);
      assert fs == [fs[0]] + fs[1..];
    }
  }

  lemma {:induction false} GetAfterPut(fs: Fields, key: Bytes, v: Value)
    ensures Get(Put(fs, key, v), key) == v
  {
    if fs != [] && fs[0].key != key {
      GetAfterPut(fs[1..], key, v);
      assert Put(fs, key, v)[1..] == Put(fs[1..], key, v);
    }
  }

  lemma {:induction false} RemoveAbsent(fs: Fields, key: Bytes)
    requires !HasKey(fs, key)
    ensures Remove(fs, key) == fs
  {
    if fs != [] {
      assert fs[0].key != key;
      assert !HasKey(fs[1..], key) by {
        assert forall i :: 0 <= i < |fs[1..]| ==> fs[1..][i] == fs[i + 1];
      }
      RemoveAbsent(fs[1..], key);
    }
  }

  lemma {:induction false} GetAbsent(fs: Fields, key: Bytes)
    requires !HasKey(fs, key)
    ensures Get(fs, key) == Null
  {
    if fs != [] {
      assert fs[0].key != key;
      assert !HasKey(fs[1..], key) by {
        assert forall i :: 0 <= i < |fs[1..]| ==> fs[1..][i] == fs[i + 1];
      }
      GetAbsent(fs[1..], key);
    }
  }

  lemma {:induction false} GetAt(fs: Fields, i: nat)
    requires Distinct(fs) && i < |fs|
    ensures Get(fs, fs[i].key) == fs[i].value
  {
    if i > 0 {
      assert fs[0].key != fs[i].key;
      GetAt(fs[1..], i - 1);
    }
  }

  // ---- DBRef recognition ----------------------------------------------------------------

  /** `isinstance(v, str)`; Code is a subclass of str. */
  predicate IsStr(v: Value) { v.Text? || v.Code? || v.CodeWithScope? }

  /** The test `_get_object` applies to a decoded subdocument. */
  predicate LooksLikeDBRef(fs: Fields)
  {
    && IsStr(Get(fs, REF_KEY))
    && HasKey(fs, DOLLAR_ID_KEY)
    && (Get(fs, DB_KEY).Null? || IsStr(Get(fs, DB_KEY)))
  }

  /** What `_get_object` makes of the decoded fields. */
  function Recognise(fs: Fields): (v: Value)
  {
    if LooksLikeDBRef(fs) then
      DBRef(Get(fs, REF_KEY), Get(fs, DOLLAR_ID_KEY), Get(fs, DB_KEY),
            Remove(Remove(Remove(fs, REF_KEY), DOLLAR_ID_KEY), DB_KEY))
    else Mapping(fs)
  }

  /** `d.update(more)`. */
  function Update(fs: Fields, more: Fields): (r: Fields)
    decreases |more|
  {
    if more == [] then fs else Update(Put(fs, more[0].key, more[0].value), more[1..])
  }

  /** The parts of a DBRef other than its extra fields. */
  function RefBase(v: Value): (fs: Fields)
    requires v.DBRef?
  {
    [Field(REF_KEY, v.collection), Field(DOLLAR_ID_KEY, v.id)]
    + if v.database.Null? then [] else [Field(DB_KEY, v.database)]
  }

  /** `DBRef.as_doc()`: an extra field with the key of a part replaces that part in place. */
  function AsDoc(v: Value): (fs: Fields)
    requires v.DBRef?
  {
    Update(RefBase(v), v.extra)
  }

  /** No extra field has the key of a part. */
  predicate NoClash(v: Value)
    requires v.DBRef?
  {
    && !HasKey(v.extra, REF_KEY) && !HasKey(v.extra, DOLLAR_ID_KEY)
    && (v.database.Null? || !HasKey(v.extra, DB_KEY))
  }

  // ---- termination measure --------------------------------------------------------------

  ghost function Size(v: Value): (n: nat)
    decreases v, 1
  {
    match v
    case Mapping(fs) => 1 + SizeAll(fs)
    case List(items) => 1 + SizeItems(items)
    case CodeWithScope(_, scope) => 1 + SizeAll(scope)
    case DBRef(c, id, db, extra) => 4 + Size(c) + Size(id) + Size(db) + SizeAll(extra)
    case _ => 0
  }

  ghost function SizeAll(fs: Fields): (n: nat)
    decreases fs, 0
  {
    if fs == [] then 0 else 1 + Size(fs[0].value) + SizeAll(fs[1..])
  }

  ghost function SizeItems(items: seq<Value>): (n: nat)
    decreases items, 0
  {
    if items == [] then 0 else 1 + Size(items[0]) + SizeItems(items[1..])
  }

  lemma {:induction false} SizeAt(fs: Fields, k: nat)
    requires k < |fs|
    ensures Size(fs[k].value) < SizeAll(fs)
  {
    hide Size;
    if k > 0 {
      SizeAt(fs[1..], k - 1);
    }
  }

  lemma {:induction false} SizeItemAt(items: seq<Value>, k: nat)
    requires k < |items|
    ensures Size(items[k]) < SizeItems(items)
  {
    hide Size;
    if k > 0 {
      SizeItemAt(items[1..], k - 1);
    }
  }

  lemma {:induction false} SizeAppend(a: Fields, b: Fields)
    ensures SizeAll(a + b) == SizeAll(a) + SizeAll(b)
  {
    hide Size;
    if a == [] {
      assert a + b == b;
    } else {
      SizeAppend(a[1..], b);
      assert (a + b)[1..] == a[1..] + b && (a + b)[0] == a[0];
    }
  }

  lemma {:induction false} SizePut(fs: Fields, key: Bytes, v: Value)
    ensures SizeAll(Put(fs, key, v)) <= SizeAll(fs) + 1 + Size(v)
  {
    hide Size;
    if fs == [] {
      assert [Field(key, v)][1..] == [];
    } else if fs[0].key == key {
      assert Put(fs, key, v)[1..] == fs[1..];
    } else {
      SizePut(fs[1..], key, v);
      assert Put(fs, key, v)[1..] == Put(fs[1..], key, v);
    }
  }

  lemma {:induction false} SizeUpdate(fs: Fields, more: Fields)
    ensures SizeAll(Update(fs, more)) <= SizeAll(fs) + SizeAll(more)
    decreases |more|
  {
    hide Size, Put;
    if more != [] {
      SizePut(fs, more[0].key, more[0].value);
      SizeUpdate(Put(fs, more[0].key, more[0].value), more[1..]);
    }
  }

  lemma {:induction false} SizeBase(v: Value)
    requires v.DBRef?
    ensures SizeAll(RefBase(v)) + SizeAll(v.extra) < Size(v)
  {
    var ref, rid := Field(REF_KEY, v.collection), Field(DOLLAR_ID_KEY, v.id);
    var db := if v.database.Null? then [] else [Field(DB_KEY, v.database)];
    SizeAppend([ref, rid], db);
    assert [ref, rid][1..] == [rid] && [rid][1..] == [];
    assert SizeAll([rid]) == 1 + Size(v.id) + SizeAll([]);
    assert !v.database.Null? ==> db[1..] == [] && SizeAll(db) == 1 + Size(v.database) + SizeAll([]);
  }

  lemma {:induction false} SizeAsDoc(v: Value)
    requires v.DBRef?
    ensures SizeAll(AsDoc(v)) < Size(v)
    ensures SizeAll(RefBase(v) + v.extra) < Size(v)
  {
    hide Size, SizeAll, Update;
    SizeBase(v);
    SizeUpdate(RefBase(v), v.extra);
    SizeAppend(RefBase(v), v.extra);
  }

  // ---- regular expression flags ---------------------------------------------------------

  const IGNORECASE: nat := 2
  const LOCALE: nat := 4
  const MULTILINE: nat := 8
  const DOTALL: nat := 16
  const UNICODE: nat := 32
  const VERBOSE: nat := 64

  predicate HasFlag(flags: nat, bit: nat)
    requires bit > 0
  {
    flags / bit % 2 == 1
  }

  function LetterIf(on: bool, letter: byte): (s: Bytes) { if on then [letter] else [] }

  function Letters(i: bool, l: bool, m: bool, s: bool, u: bool, x: bool): (r: Bytes)
  {
    LetterIf(i, 0x69) + LetterIf(l, 0x6c) + LetterIf(m, 0x6d)
    + LetterIf(s, 0x73) + LetterIf(u, 0x75) + LetterIf(x, 0x78)
  }

  /** The letters written for a flag mask, in the encoder's order i, l, m, s, u, x. */
  function FlagLetters(flags: nat): (s: Bytes)
  {
    Letters(HasFlag(flags, IGNORECASE), HasFlag(flags, LOCALE), HasFlag(flags, MULTILINE),
            HasFlag(flags, DOTALL), HasFlag(flags, UNICODE), HasFlag(flags, VERBOSE))
  }

  /** `str_flags_to_int`. */
  function FlagsOfLetters(s: Bytes): (flags: nat)
  {
    (if 0x69 in s then IGNORECASE else 0)
    + (if 0x6c in s then LOCALE else 0)
    + (if 0x6d in s then MULTILINE else 0)
    + (if 0x73 in s then DOTALL else 0)
    + (if 0x75 in s then UNICODE else 0)
    + (if 0x78 in s then VERBOSE else 0)
  }

  function Mask(i: bool, l: bool, m: bool, s: bool, u: bool, x: bool): (r: nat)
  {
    (if i then IGNORECASE else 0) + (if l then LOCALE else 0) + (if m then MULTILINE else 0)
    + (if s then DOTALL else 0) + (if u then UNICODE else 0) + (if x then VERBOSE else 0)
  }

  /** The mask with every flag BSON cannot carry cleared. */
  function StoredFlags(flags: nat): (r: nat)
  {
    Mask(HasFlag(flags, IGNORECASE), HasFlag(flags, LOCALE), HasFlag(flags, MULTILINE),
         HasFlag(flags, DOTALL), HasFlag(flags, UNICODE), HasFlag(flags, VERBOSE))
  }

  lemma {:induction false} LettersMembers(i: bool, l: bool, m: bool, s: bool, u: bool, x: bool, c: byte)
    ensures c in Letters(i, l, m, s, u, x) <==>
            (i && c == 0x69) || (l && c == 0x6c) || (m && c == 0x6d)
            || (s && c == 0x73) || (u && c == 0x75) || (x && c == 0x78)
  {
    var il := LetterIf(i, 0x69) + LetterIf(l, 0x6c);
    var ilm := il + LetterIf(m, 0x6d);
    var ilms := ilm + LetterIf(s, 0x73);
    assert c in ilms <==> c in ilm || c in LetterIf(s, 0x73);
  }

  lemma {:induction false} LettersRoundTrip(i: bool, l: bool, m: bool, s: bool, u: bool, x: bool)
    ensures FlagsOfLetters(Letters(i, l, m, s, u, x)) == Mask(i, l, m, s, u, x)
    ensures NoNul(Letters(i, l, m, s, u, x)) && ValidUtf8(Letters(i, l, m, s, u, x))
  {
    hide ValidUtf8, Utf8Head, Letters;
    var letters := Letters(i, l, m, s, u, x);
    LettersMembers(i, l, m, s, u, x, 0x69);
    LettersMembers(i, l, m, s, u, x, 0x6c);
    LettersMembers(i, l, m, s, u, x, 0x6d);
    LettersMembers(i, l, m, s, u, x, 0x73);
    LettersMembers(i, l, m, s, u, x, 0x75);
    LettersMembers(i, l, m, s, u, x, 0x78);
    LettersMembers(i, l, m, s, u, x, 0);
    forall k | 0 <= k < |letters| ensures letters[k] < 0x80 {
      LettersMembers(i, l, m, s, u, x, letters[k]);
    }
    AsciiIsUtf8(letters);
  }

  lemma {:induction false} MaskHasFlags(i: bool, l: bool, m: bool, s: bool, u: bool, x: bool)
    ensures var f := Mask(i, l, m, s, u, x);
            && HasFlag(f, IGNORECASE) == i && HasFlag(f, LOCALE) == l && HasFlag(f, MULTILINE) == m
            && HasFlag(f, DOTALL) == s && HasFlag(f, UNICODE) == u && HasFlag(f, VERBOSE) == x
  {
  }

  lemma {:induction false} FlagsRoundTrip(flags: nat)
    ensures FlagsOfLetters(FlagLetters(flags)) == StoredFlags(flags)
    ensures NoNul(FlagLetters(flags)) && ValidUtf8(FlagLetters(flags))
  {
    LettersRoundTrip(HasFlag(flags, IGNORECASE), HasFlag(flags, LOCALE), HasFlag(flags, MULTILINE),
                     HasFlag(flags, DOTALL), HasFlag(flags, UNICODE), HasFlag(flags, VERBOSE));
  }

  /** The flags by their letters, with the values Python's `re` gives them. */
  lemma {:induction false} FlagsByLetter()
    ensures FlagsOfLetters(Ascii("i")) == 2 && FlagsOfLetters(Ascii("l")) == 4 && FlagsOfLetters(Ascii("m")) == 8
    ensures FlagsOfLetters(Ascii("s")) == 16 && FlagsOfLetters(Ascii("u")) == 32 && FlagsOfLetters(Ascii("x")) == 64
    ensures FlagLetters(126) == Ascii("ilmsux")
  {
    assert Ascii("i") == [0x69] && Ascii("l") == [0x6c] && Ascii("m") == [0x6d];
    assert Ascii("s") == [0x73] && Ascii("u") == [0x75] && Ascii("x") == [0x78];
    assert Ascii("ilmsux") == [0x69, 0x6c, 0x6d, 0x73, 0x75, 0x78];
  }

  ghost predicate Ascends(s: Bytes, below: nat)
  {
    && (forall i :: 0 <= i < |s| ==> s[i] < below)
    && (forall i, j :: 0 <= i < j < |s| ==> s[i] < s[j])
  }

  lemma {:induction false} OneMoreLetter(s: Bytes, on: bool, letter: byte)
    requires Ascends(s, letter)
    ensures Ascends(s + LetterIf(on, letter), letter + 1)
  {
  }

  lemma {:induction false} AscendsFurther(s: Bytes, below: nat, further: nat)
    requires Ascends(s, below) && below <= further
    ensures Ascends(s, further)
  {
  }

  /** The BSON specification has the letters in alphabetical order. */
  lemma {:induction false} LettersAscend(flags: nat)
    ensures forall i, j :: 0 <= i < j < |FlagLetters(flags)| ==> FlagLetters(flags)[i] < FlagLetters(flags)[j]
  {
    hide LetterIf, HasFlag;
    var i := LetterIf(HasFlag(flags, IGNORECASE), 0x69);
    var l := LetterIf(HasFlag(flags, LOCALE), 0x6c);
    var m := LetterIf(HasFlag(flags, MULTILINE), 0x6d);
    var s := LetterIf(HasFlag(flags, DOTALL), 0x73);
    var u := LetterIf(HasFlag(flags, UNICODE), 0x75);
    assert Ascends([], 0x69) && [] + i == i;
    OneMoreLetter([], HasFlag(flags, IGNORECASE), 0x69);
    AscendsFurther(i, 0x6a, 0x6c);
    OneMoreLetter(i, HasFlag(flags, LOCALE), 0x6c);
    OneMoreLetter(i + l, HasFlag(flags, MULTILINE), 0x6d);
    AscendsFurther(i + l + m, 0x6e, 0x73);
    OneMoreLetter(i + l + m, HasFlag(flags, DOTALL), 0x73);
    AscendsFurther(i + l + m + s, 0x74, 0x75);
    OneMoreLetter(i + l + m + s, HasFlag(flags, UNICODE), 0x75);
    AscendsFurther(i + l + m + s + u, 0x76, 0x78);
    OneMoreLetter(i + l + m + s + u, HasFlag(flags, VERBOSE), 0x78);
  }

  // ---- decimal list names ---------------------------------------------------------------

  /** `str(n).encode()` for a natural number. */
  function Digits(n: nat): (s: Bytes)
    ensures |s| >= 1 && forall i :: 0 <= i < |s| ==> 0x30 <= s[i] <= 0x39
  {
    if n < 10 then [0x30 + n] else Digits(n / 10) + [0x30 + n % 10]
  }
}
