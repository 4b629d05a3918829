/**
 Extended JSON as it is spelled: the forms that bson/json_util.py writes for each type and the keys it
 has parsers for, in the text of the Extended JSON v2 specification, and the readings of the types that
 it only reads.
 */
module JsonForms {
  import opened Bytes
  import opened Bson
  import opened ExtendedJson
  import CDigits
  import Decimal

  lemma {:induction false} ShortNames()
    ensures OID_NAME == Ascii("$oid") && DATE_NAME == Ascii("$date") && REGEX_NAME == Ascii("$regex")
    ensures CODE_NAME == Ascii("$code") && UUID_NAME == Ascii("$uuid") && SCOPE_NAME == Ascii("$scope")
    ensures TYPE_NAME == Ascii("$type") && T_NAME == Ascii("t") && I_NAME == Ascii("i")
    ensures BASE64_NAME == Ascii("base64") && SUB_TYPE_NAME == Ascii("subType") && NAN_NAME == Ascii("NaN")
    ensures REF_KEY == Ascii("$ref") && DOLLAR_ID_KEY == Ascii("$id") && DB_KEY == Ascii("$db")
  {
  }

  lemma {:induction false} MiddleNames()
    ensures MIN_KEY_NAME == Ascii("$minKey") && MAX_KEY_NAME == Ascii("$maxKey") && BINARY_NAME == Ascii("$binary")
    ensures SYMBOL_NAME == Ascii("$symbol") && PATTERN_NAME == Ascii("pattern") && OPTIONS_NAME == Ascii("options")
    ensures INFINITY_NAME == Ascii("Infinity") && MINUS_INFINITY_NAME == Ascii("-Infinity")
    ensures UNDEFINED_NAME == Ascii("$undefined") && TIMESTAMP_NAME == Ascii("$timestamp")
  {
  }

  lemma {:induction false} LongNames()
    ensures NUMBER_LONG_NAME == Ascii("$numberLong") && NUMBER_INT_NAME == Ascii("$numberInt")
    ensures NUMBER_DOUBLE_NAME == Ascii("$numberDouble") && NUMBER_DECIMAL_NAME == Ascii("$numberDecimal")
    ensures DB_POINTER_NAME == Ascii("$dbPointer") && REGULAR_EXPRESSION_NAME == Ascii("$regularExpression")
  {
  }

  /** Names that the Python objects have. */
  lemma {:induction false} PythonNames()
    ensures ITEMS_NAME == Ascii("items") && ITER_NAME == Ascii("__iter__") && SELF_NAME == Ascii("self")
    ensures COLLECTION_NAME == Ascii("collection") && ID_NAME == Ascii("id") && DATABASE_NAME == Ascii("database")
    ensures EXTRA_NAME == Ascii("_extra")
  {
  }

  function Two(a: Bytes, x: Json, b: Bytes, y: Json): (j: Json) { JObject([Member(a, x), Member(b, y)]) }

  /** `{:02x}`. */
  function TwoHex(b: byte): (s: Bytes)
  {
    var digits := Ascii("0123456789abcdef");
    [digits[b / 16], digits[b % 16]]
  }

  lemma {:induction false} HexIsTwoHex(b: byte)
    ensures Hex([b]) == TwoHex(b)
  {
    assert [b][1..] == [];
    assert Hex([b]) == [HexDigit(b / 16), HexDigit(b % 16)] + Hex([]);
    HexDigitIs(b / 16);
    HexDigitIs(b % 16);
  }

  lemma {:induction false} HexDigitIs(n: nat)
    requires n < 16
    ensures HexDigit(n) == Ascii("0123456789abcdef")[n]
  {
  }

  /** The type wrappers, as the specification spells them. */
  lemma {:induction false} NumbersAreSpelled(lib: Library, n: int, bits: Word8)
    ensures Convert(lib, Int(n)) ==
            Made(Wrap(if -0x8000_0000 <= n < 0x8000_0000 then Ascii("$numberInt") else Ascii("$numberLong"),
                     JString(CDigits.SignedDigits(n))))
    ensures Convert(lib, Int64(n)) == Made(Wrap(Ascii("$numberLong"), JString(CDigits.SignedDigits(n))))
    ensures IsInt64(n) ==>
              Convert(lib, DatetimeMs(n))
              == Made(Wrap(Ascii("$date"), Wrap(Ascii("$numberLong"), JString(CDigits.SignedDigits(n)))))
    ensures Convert(lib, Float(bits)) == Made(Wrap(Ascii("$numberDouble"), JString(DoubleText(lib, bits))))
    ensures !IsNan(bits) && !IsInfinite(bits) ==> DoubleText(lib, bits) == lib.doubleText(bits)
    ensures IsNan(bits) ==> DoubleText(lib, bits) == Ascii("NaN")
    ensures DoubleText(lib, POSITIVE_INFINITY) == Ascii("Infinity")
    ensures DoubleText(lib, NEGATIVE_INFINITY) == Ascii("-Infinity")
  {
    hide CDigits.SignedDigits;
    ShortNames();
    MiddleNames();
    LongNames();
  }

  lemma {:induction false} BytesAreSpelled(lib: Library, data: Bytes, subtype: byte, oid: Word12)
    ensures Convert(lib, RawBytes(data))
            == Made(Wrap(Ascii("$binary"), Two(Ascii("base64"), JString(lib.base64(data)),
                                              Ascii("subType"), JString(Ascii("00")))))
    ensures Convert(lib, Binary(data, subtype))
            == Made(Wrap(Ascii("$binary"), Two(Ascii("base64"), JString(lib.base64(data)),
                                              Ascii("subType"), JString(TwoHex(subtype)))))
    ensures Convert(lib, ObjectId(oid)) == Made(Wrap(Ascii("$oid"), JString(Hex(oid))))
  {
    hide Hex, TwoHex;
    ShortNames();
    MiddleNames();
    HexIsTwoHex(subtype);
    HexIsTwoHex(0);
    ZeroInHex();
  }

  lemma {:induction false} ZeroInHex()
    ensures TwoHex(0) == Ascii("00")
  {
  }

  /** Each byte of an ObjectId in two digits. */
  lemma {:induction false} HexByByte(s: Bytes, i: nat)
    requires i < |s|
    ensures Hex(s)[2 * i..2 * i + 2] == TwoHex(s[i])
  {
    hide TwoHex;
    if i == 0 {
      HexIsTwoHex(s[0]);
      assert [s[0]][1..] == [];
      assert Hex([s[0]]) == [HexDigit(s[0] / 16), HexDigit(s[0] % 16)] + Hex([]);
    } else {
      HexByByte(s[1..], i - 1);
      assert Hex(s)[2..] == Hex(s[1..]);
      assert Hex(s)[2 * i..2 * i + 2] == Hex(s)[2..][2 * (i - 1)..2 * (i - 1) + 2];
    }
  }

  lemma {:induction false} TextsAreSpelled(lib: Library, s: Bytes, flags: nat)
    ensures Convert(lib, Text(s)) == Made(JString(s))
    ensures Convert(lib, Regex(s, flags))
            == Made(Wrap(Ascii("$regularExpression"),
                        Two(Ascii("pattern"), JString(s), Ascii("options"), JString(FlagLetters(flags)))))
    ensures Convert(lib, Code(s)) == Made(Wrap(Ascii("$code"), JString(s)))
    ensures Convert(lib, CodeWithScope(s, []))
            == Made(Two(Ascii("$code"), JString(s), Ascii("$scope"), JObject([])))
  {
    hide FlagLetters;
    ShortNames();
    MiddleNames();
    LongNames();
  }

  lemma {:induction false} OthersAreSpelled(lib: Library, time: uint32, inc: uint32)
    ensures Convert(lib, Bool(true)) == Made(JBool(true)) && Convert(lib, Bool(false)) == Made(JBool(false))
    ensures Convert(lib, Null) == Made(JNull)
    ensures Convert(lib, Timestamp(time, inc))
            == Made(Wrap(Ascii("$timestamp"), Two(Ascii("t"), JInt(time), Ascii("i"), JInt(inc))))
    ensures Convert(lib, MinKey) == Made(Wrap(Ascii("$minKey"), JInt(1)))
    ensures Convert(lib, MaxKey) == Made(Wrap(Ascii("$maxKey"), JInt(1)))
  {
    ShortNames();
    MiddleNames();
  }

  /** A DBRef without extra fields. */
  lemma {:induction false} RefIsSpelled(lib: Library, c: Bytes, id: Value, j: Json, db: Bytes)
    requires Convert(lib, id) == Made(j)
    ensures Convert(lib, DBRef(Text(c), id, Null, []))
            == Made(Two(Ascii("$ref"), JString(c), Ascii("$id"), j))
    ensures Convert(lib, DBRef(Text(c), id, Text(db), []))
            == Made(JObject([Member(Ascii("$ref"), JString(c)), Member(Ascii("$id"), j),
                             Member(Ascii("$db"), JString(db))]))
  {
    ShortNames();
    TextConverts(lib, c);
    TextConverts(lib, db);
    var ref, rid, rdb := Field(REF_KEY, Text(c)), Field(DOLLAR_ID_KEY, id), Field(DB_KEY, Text(db));
    assert AsDoc(DBRef(Text(c), id, Null, [])) == [ref] + [rid];
    assert AsDoc(DBRef(Text(c), id, Text(db), [])) == [ref] + ([rid] + [rdb]);
    OneConverts(lib, rid, j);
    OneConverts(lib, rdb, JString(db));
    ConsConverts(lib, ref, [rid], JString(c), [Member(DOLLAR_ID_KEY, j)]);
    ConsConverts(lib, rid, [rdb], j, [Member(DB_KEY, JString(db))]);
    ConsConverts(lib, ref, [rid] + [rdb], JString(c), [Member(DOLLAR_ID_KEY, j)] + [Member(DB_KEY, JString(db))]);
    var a, b, d := Member(REF_KEY, JString(c)), Member(DOLLAR_ID_KEY, j), Member(DB_KEY, JString(db));
    assert [a] + [b] == [a, b] && [a] + ([b] + [d]) == [a, b, d];
  }

  lemma {:induction false} TextConverts(lib: Library, s: Bytes)
    ensures Convert(lib, Text(s)) == Made(JString(s))
  {
  }

  lemma {:induction false} OneConverts(lib: Library, f: Field, j: Json)
    requires Convert(lib, f.value) == Made(j)
    ensures ConvertAll(lib, [f]) == Made([Member(f.key, j)])
  {
    hide Convert;
    assert [f][1..] == [];
    assert ConvertAll(lib, []) == Made([]);
    assert [Member(f.key, j)] + [] == [Member(f.key, j)];
  }

  lemma {:induction false} ConsConverts(lib: Library, f: Field, fs: Fields, j: Json, ms: seq<Member>)
    requires Convert(lib, f.value) == Made(j) && ConvertAll(lib, fs) == Made(ms)
    ensures ConvertAll(lib, [f] + fs) == Made([Member(f.key, j)] + ms)
  {
    hide Convert;
    assert ([f] + fs)[1..] == fs;
  }

  function DecimalJson(text: Bytes): (r: Tree<Json>) { Made(Wrap(Ascii("$numberDecimal"), JString(text))) }

  /** A decimal is written as `str` writes it: one of the context through the context, a zero of the long
      form and the infinities as they are, and every NaN by the one name. */
  lemma {:induction false} DecimalsAreSpelled(lib: Library, bid: Word16)
    requires Inverses(lib)
    ensures var d := Decimal.Unpack(WordsOf(bid));
            && (d.Finite? && (Decimal.InContext(d) || Decimal.LongForm(WordsOf(bid))) ==>
                  Convert(lib, Decimal128(bid)) == DecimalJson(lib.decimalText(d)))
            && (d.Infinity? ==> Convert(lib, Decimal128(bid)) == DecimalJson(lib.decimalText(d)))
            && (d.QuietNaN? || d.SignalingNaN? ==> Convert(lib, Decimal128(bid)) == DecimalJson(Ascii("NaN")))
  {
    hide Decimal.Unpack, Decimal.LongForm;
    ShortNames();
    LongNames();
  }

  // ---- what is read --------------------------------------------------------------------

  /** Hexadecimal digits of either case. */
  lemma {:induction false} HexDigitsRead(n: nat)
    requires n < 16
    ensures DigitOfHex(Ascii("0123456789abcdef")[n]) == Some(n)
    ensures DigitOfHex(Ascii("0123456789ABCDEF")[n]) == Some(n)
  {
  }

  /** A double is NaN if, its sign aside, it is above infinity as a number. */
  lemma {:induction false} NanByNumber(bits: Word8)
    ensures IsNan(bits) <==> FromLe(bits) % 0x8000_0000_0000_0000 > 0x7ff0_0000_0000_0000
    ensures IsInfinite(bits) <==> FromLe(bits) % 0x8000_0000_0000_0000 == 0x7ff0_0000_0000_0000
  {
    ByteSum(bits);
    var low := FromLe(bits[..6]);
    SixBytes(bits[..6]);
    assert bits == bits[..6] + [bits[6], bits[7]];
    assert low == 0 <==> bits[..6] == [0, 0, 0, 0, 0, 0];
    assert POSITIVE_INFINITY == [0, 0, 0, 0, 0, 0] + [0xf0, 0x7f];
    assert NEGATIVE_INFINITY == [0, 0, 0, 0, 0, 0] + [0xf0, 0xff];
  }

  lemma {:induction false} ByteSum(bits: Word8)
    ensures var six: int, seven: int := bits[6], bits[7];
            FromLe(bits) == FromLe(bits[..6]) + six * 0x1_0000_0000_0000 + seven * 0x100_0000_0000_0000
  {
    FromLeAppends(bits[..6], bits[6..]);
    assert bits[..6] + bits[6..] == bits;
    assert bits[6..][1..] == [bits[7]] && [bits[7]][1..] == [];
    assert FromLe([bits[7]]) == bits[7];
    var six: int, seven: int := bits[6], bits[7];
    assert FromLe(bits[6..]) == six + 256 * seven;
    PowerOfSix();
  }

  lemma {:induction false} PowerOfSix()
    ensures Pow256(6) == 0x1_0000_0000_0000
  {
    assert Pow256(2) == 0x1_0000;
    assert Pow256(4) == 0x1_0000 * 0x1_0000;
    assert Pow256(6) == 0x1_0000 * Pow256(4);
  }

  lemma {:induction false} FromLeAppends(a: Bytes, b: Bytes)
    ensures FromLe(a + b) == FromLe(a) + Pow256(|a|) * FromLe(b)
  {
    if a == [] {
      assert a + b == b;
    } else {
      FromLeAppends(a[1..], b);
      assert (a + b)[1..] == a[1..] + b;
      assert 256 * (Pow256(|a| - 1) * FromLe(b)) == Pow256(|a|) * FromLe(b);
    }
  }

  lemma {:induction false} SixBytes(s: Bytes)
    requires |s| == 6
    ensures FromLe(s) < 0x1_0000_0000_0000 && (FromLe(s) == 0 <==> s == [0, 0, 0, 0, 0, 0])
  {
    FromLeRoundTrip(s);
    PowerOfSix();
    ZeroIsZeros(s);
  }

  lemma {:induction false} ZeroIsZeros(s: Bytes)
    ensures FromLe(s) == 0 <==> forall i :: 0 <= i < |s| ==> s[i] == 0
  {
    if s != [] {
      ZeroIsZeros(s[1..]);
      assert forall i :: 0 < i < |s| ==> s[i] == s[1..][i - 1];
    }
  }

  predicate IsParameter(key: Bytes)
  {
    key == Ascii("self") || key == Ascii("collection") || key == Ascii("id") || key == Ascii("database")
  }

  /** The names that `DBRef(...)` has itself and cannot take a second time. */
  lemma {:induction false} ClashesByName(fs: Fields)
    ensures Clashes(fs) <==> exists i :: 0 <= i < |fs| && IsParameter(fs[i].key)
  {
    PythonNames();
  }

  // ---- the table of parsers -------------------------------------------------------------

  /** `_PARSERS`, by the text of its keys. */
  lemma {:induction false} ShortParsers()
    ensures ParserOf(Ascii("$oid")) == Some(OidParser)
    ensures ParserOf(Ascii("$ref")) == Some(RefParser)
    ensures ParserOf(Ascii("$date")) == Some(DateParser)
    ensures ParserOf(Ascii("$code")) == Some(CodeParser)
    ensures ParserOf(Ascii("$uuid")) == Some(UuidParser)
    ensures ParserOf(Ascii("$regex")) == Some(LegacyRegexParser)
  {
    ShortNames();
  }

  lemma {:induction false} MiddleParsers()
    ensures ParserOf(Ascii("$minKey")) == Some(MinKeyParser)
    ensures ParserOf(Ascii("$maxKey")) == Some(MaxKeyParser)
    ensures ParserOf(Ascii("$binary")) == Some(BinaryParser)
    ensures ParserOf(Ascii("$symbol")) == Some(SymbolParser)
    ensures ParserOf(Ascii("$undefined")) == Some(UndefinedParser)
    ensures ParserOf(Ascii("$timestamp")) == Some(TimestampParser)
  {
    MiddleNames();
  }

  lemma {:induction false} LongParsers()
    ensures ParserOf(Ascii("$numberInt")) == Some(NumberIntParser)
    ensures ParserOf(Ascii("$numberLong")) == Some(NumberLongParser)
    ensures ParserOf(Ascii("$numberDouble")) == Some(NumberDoubleParser)
    ensures ParserOf(Ascii("$numberDecimal")) == Some(NumberDecimalParser)
    ensures ParserOf(Ascii("$dbPointer")) == Some(DbPointerParser)
    ensures ParserOf(Ascii("$regularExpression")) == Some(RegularExpressionParser)
  {
    LongNames();
  }

  /** No other key has a parser. */
  lemma {:induction false} NoOtherParser(key: Bytes)
    requires ParserOf(key).Some?
    ensures key != [] && key[0] as char == '$' && 4 <= |key| <= 18
    ensures key != Ascii("$id") && key != Ascii("$db")
  {
    ShortNames();
    MiddleNames();
    LongNames();
  }

  // ---- types that are only read ---------------------------------------------------------

  /** A symbol becomes a str, and undefined, whatever is said of it, None. */
  lemma {:induction false} SymbolAndUndefined(lib: Library, s: Bytes, j: Json)
    ensures Parse(lib, Wrap(Ascii("$symbol"), JString(s))) == Ok(Text(s))
    ensures Parse(lib, j).Ok? ==> Parse(lib, Wrap(Ascii("$undefined"), j)) == Ok(Null)
  {
    hide ParserOf, FirstParser, Get, Parse;
    MiddleNames();
    MiddleParsers();
    StringIsText(lib, s);
    ParseOne(lib, Ascii("$symbol"), JString(s), Text(s));
    if Parse(lib, j).Ok? {
      ParseOne(lib, Ascii("$undefined"), j, Parse(lib, j).value);
    }
  }

  lemma {:induction false} StringIsText(lib: Library, s: Bytes)
    ensures Parse(lib, JString(s)) == Ok(Text(s))
  {
  }

  /** A plain JSON number is taken for a long and for a date as well. */
  lemma {:induction false} PlainNumbers(lib: Library, n: int)
    ensures Parse(lib, Wrap(Ascii("$numberLong"), JInt(n))) == Ok(Int64(n))
    ensures Parse(lib, Wrap(Ascii("$date"), JInt(n))) == if IsInt64(n) then Ok(DatetimeMs(n)) else Raises
  {
    hide ParserOf, FirstParser, Get, Parse;
    ShortNames();
    LongNames();
    ShortParsers();
    LongParsers();
    IntIsInt(lib, n);
    ParseOne(lib, Ascii("$numberLong"), JInt(n), Int(n));
    ParseOne(lib, Ascii("$date"), JInt(n), Int(n));
  }

  lemma {:induction false} IntIsInt(lib: Library, n: int)
    ensures Parse(lib, JInt(n)) == Ok(Int(n))
  {
  }

  /** A DBPointer is read as a DBRef, but only one to an ObjectId, without database and extra fields. */
  lemma {:induction false} PointerIsRead(lib: Library, j: Json, v: Value)
    requires Parse(lib, j) == Ok(v)
    ensures Parse(lib, Wrap(Ascii("$dbPointer"), j))
            == if v.DBRef? && v.database == Null && v.id.ObjectId? && v.extra == [] then Ok(v) else Raises
  {
    hide ParserOf, FirstParser, Get, Parse;
    LongNames();
    LongParsers();
    ParseOne(lib, Ascii("$dbPointer"), j, v);
  }

  /** A wrapper with another field beside its own is refused. */
  lemma {:induction false} ExtraFieldRaises(lib: Library, fs: Fields)
    requires FirstParser(fs).Some? && |fs| != 1
    requires !FirstParser(fs).value.RefParser? && !FirstParser(fs).value.LegacyRegexParser?
    requires !FirstParser(fs).value.BinaryParser? && !FirstParser(fs).value.CodeParser?
    requires !FirstParser(fs).value.UndefinedParser? && !FirstParser(fs).value.TimestampParser?
    ensures ObjectHook(lib, fs) == Raises
  {
  }

  predicate IsCodeKey(key: Bytes) { key == Ascii("$code") || key == Ascii("$scope") }

  /** A wrapper is refused for a value of the wrong type, and `$code` for any other key beside it. */
  lemma {:induction false} ValuesAreChecked(lib: Library, fs: Fields, i: nat)
    requires FirstParser(fs).Some?
    ensures var parser := FirstParser(fs).value;
            && (parser.CodeParser? && i < |fs| && !IsCodeKey(fs[i].key) ==> ObjectHook(lib, fs) == Raises)
            && (parser.NumberIntParser? && !IsStr(Get(fs, NUMBER_INT_NAME)) ==> ObjectHook(lib, fs) == Raises)
            && (parser.NumberDoubleParser? && !IsStr(Get(fs, NUMBER_DOUBLE_NAME)) ==> ObjectHook(lib, fs) == Raises)
            && (parser.NumberDecimalParser? && !IsStr(Get(fs, NUMBER_DECIMAL_NAME)) ==> ObjectHook(lib, fs) == Raises)
            && (parser.MinKeyParser? && Get(fs, MIN_KEY_NAME) != Int(1) ==> ObjectHook(lib, fs) == Raises)
            && (parser.MaxKeyParser? && Get(fs, MAX_KEY_NAME) != Int(1) ==> ObjectHook(lib, fs) == Raises)
  {
    hide FirstParser, Get;
    ShortNames();
  }

  /** The parts inside a wrapper are counted and checked as well. */
  lemma {:induction false} PartsAreChecked(lib: Library, fs: Fields, parts: Fields)
    requires FirstParser(fs).Some?
    ensures FirstParser(fs).value.BinaryParser? && Get(fs, BINARY_NAME) == Mapping(parts) && |parts| != 2
            && !HasKey(fs, TYPE_NAME) ==>
              ObjectHook(lib, fs) == Raises
    ensures FirstParser(fs).value.RegularExpressionParser? && Get(fs, REGULAR_EXPRESSION_NAME) == Mapping(parts)
            && |parts| != 2 ==>
              ObjectHook(lib, fs) == Raises
    ensures FirstParser(fs).value.TimestampParser? && Get(fs, TIMESTAMP_NAME) == Mapping(parts)
            && !(HasKey(parts, T_NAME) && HasKey(parts, I_NAME)) ==>
              ObjectHook(lib, fs) == Raises
    ensures FirstParser(fs).value.TimestampParser? && Get(fs, TIMESTAMP_NAME) == Mapping(parts)
            && Get(parts, T_NAME).Int? && Get(parts, I_NAME).Int?
            && !(0 <= Get(parts, T_NAME).n < 0x1_0000_0000 && 0 <= Get(parts, I_NAME).n < 0x1_0000_0000) ==>
              ObjectHook(lib, fs) == Raises
  {
    hide FirstParser, Get, HasKey;
  }

  /** A DBRef with an extra field that looks like a method cannot be converted; a Code with such a scope
      is written as its text alone, and a DBRef that refers to it is left as an object. */
  lemma {:induction false} MethodNamesStopConversion(lib: Library, v: Value, k: nat, key: Bytes, s: Bytes)
    requires v.DBRef? && k < |v.extra|
    requires v.extra[k].key == Ascii("items") || v.extra[k].key == Ascii("__iter__")
    ensures Convert(lib, v) == TypeError
    ensures Convert(lib, CodeWithScope(s, [Field(key, v)])) == Made(JString(s))
    ensures Convert(lib, DBRef(Text(s), v, Null, [])) == Made(JLeft)
  {
    PythonNames();
    assert HasKey(v.extra, v.extra[k].key);
    hide HasKey;
    assert ConvertAll(lib, [Field(key, v)]) == TypeError;
    var ref, rid := Field(REF_KEY, Text(s)), Field(DOLLAR_ID_KEY, v);
    assert AsDoc(DBRef(Text(s), v, Null, [])) == [ref] + [rid];
    assert ([ref] + [rid])[1..] == [rid];
    assert ConvertAll(lib, [rid]) == TypeError;
    TextConverts(lib, s);
    assert ConvertAll(lib, [ref] + [rid]) == TypeError;
    NothingClashes();
  }

  lemma {:induction false} NothingClashes()
    ensures !HasKey([], ITEMS_NAME) && !HasKey([], ITER_NAME)
  {
  }
}
