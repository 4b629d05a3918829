/**
 Canonical Extended JSON: `_json_convert` with the encoders of bson/json_util.py, and `object_hook`
 with its parsers, on JSON trees.  JSON text itself, base64 and the decimal spelling of doubles and
 decimals belong to Python's libraries and are parameters.  Options are those of
 CANONICAL_JSON_OPTIONS with datetimes read as DatetimeMS and UUIDs left as Binary.
 */
module ExtendedJson {
  import opened Bytes
  import opened Bson
  import opened Expectation = ReadBack
  import opened Encoder
  import Decimal
  import CDigits

  datatype Json =
    | JObject(members: seq<Member>)
    | JArray(items: seq<Json>)
    | JString(utf8: Bytes)
    | JInt(n: int)
    | JBool(b: bool)
    | JNull
    | JLeft              // an object left unconverted, which `json.dumps` refuses

  datatype Member = Member(key: Bytes, value: Json)

  /** What a conversion comes to: `_json_convert` catches a TypeError raised inside `default`, and
      leaves that object as it is; other errors pass through. */
  datatype Tree<+T> = Made(value: T) | TypeError | OtherError

  /** Outside: an input form that this model does not follow, such as the legacy spellings. */
  datatype Parsed<+T> = Ok(value: T) | Raises | Outside

  const OID_NAME: Bytes := [0x24, 0x6f, 0x69, 0x64]   // $oid
  const DATE_NAME: Bytes := [0x24, 0x64, 0x61, 0x74, 0x65]   // $date
  const REGEX_NAME: Bytes := [0x24, 0x72, 0x65, 0x67, 0x65, 0x78]   // $regex
  const MIN_KEY_NAME: Bytes := [0x24, 0x6d, 0x69, 0x6e, 0x4b, 0x65, 0x79]   // $minKey
  const MAX_KEY_NAME: Bytes := [0x24, 0x6d, 0x61, 0x78, 0x4b, 0x65, 0x79]   // $maxKey
  const BINARY_NAME: Bytes := [0x24, 0x62, 0x69, 0x6e, 0x61, 0x72, 0x79]   // $binary
  const CODE_NAME: Bytes := [0x24, 0x63, 0x6f, 0x64, 0x65]   // $code
  const UUID_NAME: Bytes := [0x24, 0x75, 0x75, 0x69, 0x64]   // $uuid
  // $undefined
  const UNDEFINED_NAME: Bytes := [0x24, 0x75, 0x6e, 0x64, 0x65, 0x66, 0x69, 0x6e, 0x65, 0x64]
  // $numberLong
  const NUMBER_LONG_NAME: Bytes := [0x24, 0x6e, 0x75, 0x6d, 0x62, 0x65, 0x72, 0x4c, 0x6f, 0x6e, 0x67]
  // $timestamp
  const TIMESTAMP_NAME: Bytes := [0x24, 0x74, 0x69, 0x6d, 0x65, 0x73, 0x74, 0x61, 0x6d, 0x70]
  // $numberDecimal
  const NUMBER_DECIMAL_NAME: Bytes := [0x24, 0x6e, 0x75, 0x6d, 0x62, 0x65, 0x72, 0x44, 0x65, 0x63, 0x69, 0x6d, 0x61,
                                       0x6c]
  // $dbPointer
  const DB_POINTER_NAME: Bytes := [0x24, 0x64, 0x62, 0x50, 0x6f, 0x69, 0x6e, 0x74, 0x65, 0x72]
  // $regularExpression
  const REGULAR_EXPRESSION_NAME: Bytes := [0x24, 0x72, 0x65, 0x67, 0x75, 0x6c, 0x61, 0x72, 0x45, 0x78, 0x70, 0x72,
                                           0x65, 0x73, 0x73, 0x69, 0x6f, 0x6e]
  const SYMBOL_NAME: Bytes := [0x24, 0x73, 0x79, 0x6d, 0x62, 0x6f, 0x6c]   // $symbol
  // $numberInt
  const NUMBER_INT_NAME: Bytes := [0x24, 0x6e, 0x75, 0x6d, 0x62, 0x65, 0x72, 0x49, 0x6e, 0x74]
  // $numberDouble
  const NUMBER_DOUBLE_NAME: Bytes := [0x24, 0x6e, 0x75, 0x6d, 0x62, 0x65, 0x72, 0x44, 0x6f, 0x75, 0x62, 0x6c, 0x65]
  const SCOPE_NAME: Bytes := [0x24, 0x73, 0x63, 0x6f, 0x70, 0x65]   // $scope
  const TYPE_NAME: Bytes := [0x24, 0x74, 0x79, 0x70, 0x65]   // $type
  const BASE64_NAME: Bytes := [0x62, 0x61, 0x73, 0x65, 0x36, 0x34]   // base64
  const SUB_TYPE_NAME: Bytes := [0x73, 0x75, 0x62, 0x54, 0x79, 0x70, 0x65]   // subType
  const PATTERN_NAME: Bytes := [0x70, 0x61, 0x74, 0x74, 0x65, 0x72, 0x6e]   // pattern
  const OPTIONS_NAME: Bytes := [0x6f, 0x70, 0x74, 0x69, 0x6f, 0x6e, 0x73]   // options
  const T_NAME: Bytes := [0x74]   // t
  const I_NAME: Bytes := [0x69]   // i
  const ITEMS_NAME: Bytes := [0x69, 0x74, 0x65, 0x6d, 0x73]   // items
  const ITER_NAME: Bytes := [0x5f, 0x5f, 0x69, 0x74, 0x65, 0x72, 0x5f, 0x5f]   // __iter__
  const SELF_NAME: Bytes := [0x73, 0x65, 0x6c, 0x66]   // self
  const COLLECTION_NAME: Bytes := [0x63, 0x6f, 0x6c, 0x6c, 0x65, 0x63, 0x74, 0x69, 0x6f, 0x6e]   // collection
  const ID_NAME: Bytes := [0x69, 0x64]   // id
  const DATABASE_NAME: Bytes := [0x64, 0x61, 0x74, 0x61, 0x62, 0x61, 0x73, 0x65]   // database
  const EXTRA_NAME: Bytes := [0x5f, 0x65, 0x78, 0x74, 0x72, 0x61]   // _extra
  const NAN_NAME: Bytes := [0x4e, 0x61, 0x4e]   // NaN
  const INFINITY_NAME: Bytes := [0x49, 0x6e, 0x66, 0x69, 0x6e, 0x69, 0x74, 0x79]   // Infinity
  const MINUS_INFINITY_NAME: Bytes := [0x2d, 0x49, 0x6e, 0x66, 0x69, 0x6e, 0x69, 0x74, 0x79]   // -Infinity


  // ---- library functions ----------------------------------------------------------------

  /** `repr` and `float`, `create_decimal` of the Decimal128 context, `str` of a decimal and
      `Decimal128` of a text, base64 both ways. */
  datatype Library = Library(
    doubleText: Word8 -> Bytes, doubleOf: Bytes -> Option<Word8>,
    create: Decimal.Number -> Option<Decimal.Number>,
    decimalText: Decimal.Number -> Bytes, decimalOf: Bytes -> Option<Decimal.Number>,
    base64: Bytes -> Bytes, fromBase64: Bytes -> Option<Bytes>)

  const QUIET_NAN: Word8 := [0, 0, 0, 0, 0, 0, 0xf8, 0x7f]
  const POSITIVE_INFINITY: Word8 := [0, 0, 0, 0, 0, 0, 0xf0, 0x7f]
  const NEGATIVE_INFINITY: Word8 := [0, 0, 0, 0, 0, 0, 0xf0, 0xff]

  predicate IsInfinite(bits: Word8) { bits == POSITIVE_INFINITY || bits == NEGATIVE_INFINITY }

  predicate IsNan(bits: Word8)
  {
    (bits[7] == 0x7f || bits[7] == 0xff) && bits[6] >= 0xf0 && !IsInfinite(bits)
  }

  predicate IsDecimalNan(d: Decimal.Number) { d.QuietNaN? || d.SignalingNaN? }

  /** What the libraries promise: each reader inverts its writer. */
  ghost predicate Inverses(lib: Library)
  {
    && (forall bits: Word8 :: !IsNan(bits) && !IsInfinite(bits) ==> lib.doubleOf(lib.doubleText(bits)) == Some(bits))
    && lib.doubleOf(NAN_NAME) == Some(QUIET_NAN)
    && lib.doubleOf(INFINITY_NAME) == Some(POSITIVE_INFINITY)
    && lib.doubleOf(MINUS_INFINITY_NAME) == Some(NEGATIVE_INFINITY)
    && (forall d :: Decimal.InContext(d) && !IsDecimalNan(d) ==>
          lib.create(d) == Some(d) && lib.decimalOf(lib.decimalText(d)) == Some(d))
    && lib.decimalOf(NAN_NAME) == Some(Decimal.QuietNaN(false))
    && (forall data :: lib.fromBase64(lib.base64(data)) == Some(data))
  }

  /** `_encode_float` spells the values that JSON numbers cannot. */
  function DoubleText(lib: Library, bits: Word8): (s: Bytes)
  {
    if IsNan(bits) then NAN_NAME
    else if bits == POSITIVE_INFINITY then INFINITY_NAME
    else if bits == NEGATIVE_INFINITY then MINUS_INFINITY_NAME
    else lib.doubleText(bits)
  }

  /** The decimal that `str(obj)` spells: a finite one goes through the context, unless its
      coefficient is read as zero. */
  function Shown(lib: Library, w: Decimal.Words): (r: Option<Decimal.Number>)
  {
    var d := Decimal.Unpack(w);
    if d.Finite? && !Decimal.LongForm(w) then lib.create(d) else Some(d)
  }

  function WordsOf(bid: Word16): (w: Decimal.Words)
  {
    Decimal.FromBid(bid).value
  }

  // ---- numbers and hexadecimal ----------------------------------------------------------

  /** `int(s)` on a string of ASCII digits with an optional minus sign. */
  function ParseNat(s: Bytes): (r: Option<nat>)
  {
    if s == [] then None
    else
      var last := s[|s| - 1];
      if !(0x30 <= last <= 0x39) then None
      else if |s| == 1 then Some(last - 0x30)
      else
        var head := ParseNat(s[..|s| - 1]);
        if head.None? then None else Some(head.value * 10 + (last - 0x30))
  }

  function ParseInt(s: Bytes): (r: Option<int>)
  {
    if s != [] && s[0] == 0x2d then
      var n := ParseNat(s[1..]);
      if n.None? then None else var m: int := n.value; Some(-m)
    else
      var n := ParseNat(s);
      if n.None? then None else Some(n.value)
  }

  lemma {:induction false} ParseDigits(n: nat)
    ensures ParseNat(Digits(n)) == Some(n)
  {
    if n >= 10 {
      ParseDigits(n / 10);
      assert Digits(n)[..|Digits(n)| - 1] == Digits(n / 10);
    }
  }

  lemma {:induction false} ParseSignedDigits(n: int)
    ensures ParseInt(CDigits.SignedDigits(n)) == Some(n)
  {
    hide Digits, ParseNat;
    if n < 0 {
      ParseDigits(-n);
      assert CDigits.SignedDigits(n)[1..] == Digits(-n);
    } else {
      ParseDigits(n);
    }
  }

  function HexDigit(n: nat): (b: byte)
    requires n < 16
  {
    if n < 10 then 0x30 + n else 0x61 + (n - 10)
  }

  function DigitOfHex(b: byte): (r: Option<nat>)
    ensures r.Some? ==> r.value < 16
  {
    if 0x30 <= b <= 0x39 then Some(b - 0x30)
    else if 0x61 <= b <= 0x66 then Some(b - 0x61 + 10)
    else if 0x41 <= b <= 0x46 then Some(b - 0x41 + 10)
    else None
  }

  function Hex(s: Bytes): (r: Bytes)
    ensures |r| == 2 * |s|
  {
    if s == [] then [] else [HexDigit(s[0] / 16), HexDigit(s[0] % 16)] + Hex(s[1..])
  }

  function FromHex(s: Bytes): (r: Option<Bytes>)
    ensures r.Some? ==> |s| == 2 * |r.value|
  {
    if s == [] then Some([])
    else if |s| == 1 then None
    else
      var high, low, rest := DigitOfHex(s[0]), DigitOfHex(s[1]), FromHex(s[2..]);
      if high.None? || low.None? || rest.None? then None
      else Some([high.value * 16 + low.value] + rest.value)
  }

  lemma {:induction false} HexRoundTrip(s: Bytes)
    ensures FromHex(Hex(s)) == Some(s)
  {
    if s != [] {
      HexRoundTrip(s[1..]);
      assert Hex(s)[2..] == Hex(s[1..]);
      assert [s[0]] + s[1..] == s;
    }
  }

  // ---- writing --------------------------------------------------------------------------

  function Wrap(key: Bytes, value: Json): (j: Json) { JObject([Member(key, value)]) }

  function BinaryJson(lib: Library, data: Bytes, subtype: byte): (j: Json)
  {
    Wrap(BINARY_NAME, JObject([Member(BASE64_NAME, JString(lib.base64(data))),
                               Member(SUB_TYPE_NAME, JString(Hex([subtype])))]))
  }

  /** `_json_convert` in canonical mode. */
  function Convert(lib: Library, v: Value): (r: Tree<Json>)
    decreases Size(v), 1
  {
    match v
    case Mapping(fs) =>
      (match ConvertAll(lib, fs)
       case Made(ms) => Made(JObject(ms))
       case TypeError => TypeError
       case OtherError => OtherError)
    case List(items) =>
      (match ConvertItems(lib, items)
       case Made(js) => Made(JArray(js))
       case TypeError => TypeError
       case OtherError => OtherError)
    case Text(s) => Made(JString(s))
    case Bool(b) => Made(JBool(b))
    case Null => Made(JNull)
    case Float(bits) => Made(Wrap(NUMBER_DOUBLE_NAME, JString(DoubleText(lib, bits))))
    case Int(n) =>
      Made(Wrap(if IsInt32(n) then NUMBER_INT_NAME else NUMBER_LONG_NAME, JString(CDigits.SignedDigits(n))))
    case Int64(n) => Made(Wrap(NUMBER_LONG_NAME, JString(CDigits.SignedDigits(n))))
    case RawBytes(data) => Made(BinaryJson(lib, data, 0))
    case Binary(data, subtype) => Made(BinaryJson(lib, data, subtype))
    case ObjectId(oid) => Made(Wrap(OID_NAME, JString(Hex(oid))))
    case DatetimeMs(ms) => Made(Wrap(DATE_NAME, Wrap(NUMBER_LONG_NAME, JString(CDigits.SignedDigits(ms)))))
    case Regex(pattern, flags) =>
      Made(Wrap(REGULAR_EXPRESSION_NAME,
                JObject([Member(PATTERN_NAME, JString(pattern)), Member(OPTIONS_NAME, JString(FlagLetters(flags)))])))
    case Code(code) => Made(Wrap(CODE_NAME, JString(code)))
    case CodeWithScope(code, scope) =>
      // Left unconverted it is still a str.
      (match ConvertAll(lib, scope)
       case Made(ms) => Made(JObject([Member(CODE_NAME, JString(code)), Member(SCOPE_NAME, JObject(ms))]))
       case TypeError => Made(JString(code))
       case OtherError => OtherError)
    case Timestamp(time, inc) =>
      Made(Wrap(TIMESTAMP_NAME, JObject([Member(T_NAME, JInt(time)), Member(I_NAME, JInt(inc))])))
    case Decimal128(bid) =>
      var d := Shown(lib, WordsOf(bid));
      if d.None? then OtherError
      else Made(Wrap(NUMBER_DECIMAL_NAME, JString(if IsDecimalNan(d.value) then NAN_NAME
                                                  else lib.decimalText(d.value))))
    case MinKey => Made(Wrap(MIN_KEY_NAME, JInt(1)))
    case MaxKey => Made(Wrap(MAX_KEY_NAME, JInt(1)))
    case DBRef(_, _, _, _) =>
      // An extra field named like a method is taken for the method, and called.
      if HasKey(v.extra, ITEMS_NAME) || HasKey(v.extra, ITER_NAME) then TypeError
      else
        SizeAsDoc(v);
        match ConvertAll(lib, AsDoc(v))
        case Made(ms) => Made(JObject(ms))
        case TypeError => Made(JLeft)
        case OtherError => OtherError
  }

  function ConvertAll(lib: Library, fs: Fields): (r: Tree<seq<Member>>)
    decreases SizeAll(fs), 0
  {
    if fs == [] then Made([])
    else
      match Convert(lib, fs[0].value)
      case TypeError => TypeError
      case OtherError => OtherError
      case Made(j) =>
        match ConvertAll(lib, fs[1..])
        case Made(ms) => Made([Member(fs[0].key, j)] + ms)
        case TypeError => TypeError
        case OtherError => OtherError
  }

  function ConvertItems(lib: Library, items: seq<Value>): (r: Tree<seq<Json>>)
    decreases SizeItems(items), 0
  {
    if items == [] then Made([])
    else
      match Convert(lib, items[0])
      case TypeError => TypeError
      case OtherError => OtherError
      case Made(j) =>
        match ConvertItems(lib, items[1..])
        case Made(js) => Made([j] + js)
        case TypeError => TypeError
        case OtherError => OtherError
  }

  // ---- reading --------------------------------------------------------------------------

  datatype Parser =
    | OidParser | RefParser | DateParser | LegacyRegexParser | MinKeyParser | MaxKeyParser | BinaryParser
    | CodeParser | UuidParser | UndefinedParser | NumberLongParser | TimestampParser | NumberDecimalParser
    | DbPointerParser | RegularExpressionParser | SymbolParser | NumberIntParser | NumberDoubleParser

  /** `_PARSERS`. */
  function ParserOf(key: Bytes): (r: Option<Parser>)
  {
    if key == OID_NAME then Some(OidParser)
    else if key == REF_KEY then Some(RefParser)
    else if key == DATE_NAME then Some(DateParser)
    else if key == REGEX_NAME then Some(LegacyRegexParser)
    else if key == MIN_KEY_NAME then Some(MinKeyParser)
    else if key == MAX_KEY_NAME then Some(MaxKeyParser)
    else if key == BINARY_NAME then Some(BinaryParser)
    else if key == CODE_NAME then Some(CodeParser)
    else if key == UUID_NAME then Some(UuidParser)
    else if key == UNDEFINED_NAME then Some(UndefinedParser)
    else if key == NUMBER_LONG_NAME then Some(NumberLongParser)
    else if key == TIMESTAMP_NAME then Some(TimestampParser)
    else if key == NUMBER_DECIMAL_NAME then Some(NumberDecimalParser)
    else if key == DB_POINTER_NAME then Some(DbPointerParser)
    else if key == REGULAR_EXPRESSION_NAME then Some(RegularExpressionParser)
    else if key == SYMBOL_NAME then Some(SymbolParser)
    else if key == NUMBER_INT_NAME then Some(NumberIntParser)
    else if key == NUMBER_DOUBLE_NAME then Some(NumberDoubleParser)
    else None
  }

  /** The first key of the object, in its own order, that has a parser. */
  function FirstParser(fs: Fields): (r: Option<Parser>)
  {
    if fs == [] then None
    else if ParserOf(fs[0].key).Some? then ParserOf(fs[0].key)
    else FirstParser(fs[1..])
  }

  /** The loop of `object_hook` that looks for it. */
  method FindParser(fs: Fields) returns (found: Option<Parser>)
    ensures found == FirstParser(fs)
  {
    hide ParserOf;
    found := None;
    var i := 0;
    while i < |fs|
      invariant 0 <= i <= |fs| && found == None && FirstParser(fs) == FirstParser(fs[i..])
    {
      assert fs[i..][1..] == fs[i + 1..];
      if ParserOf(fs[i].key).Some? {
        return ParserOf(fs[i].key);
      }
      i := i + 1;
    }
  }

  function ParseOid(fs: Fields): (r: Parsed<Value>)
    ensures r.Ok? ==> !r.value.Mapping?
  {
    if |fs| != 1 then Raises
    else match Get(fs, OID_NAME)
      case Text(s) =>
        var oid := FromHex(s);
        if |s| == 24 && oid.Some? then Ok(ObjectId(oid.value)) else Outside
      case ObjectId(oid) => Ok(ObjectId(oid))
      case _ => Outside
  }

  /** Names that `DBRef(...)` cannot take as extra keyword arguments. */
  predicate Clashes(fs: Fields)
  {
    HasKey(fs, SELF_NAME) || HasKey(fs, COLLECTION_NAME) || HasKey(fs, ID_NAME) || HasKey(fs, DATABASE_NAME)
  }

  function ParseRef(fs: Fields): (r: Parsed<Value>)
  {
    var v := Recognise(fs);
    if v.DBRef? && Clashes(v.extra) then Raises
    else if v.DBRef? && HasKey(v.extra, EXTRA_NAME) then Outside
    else Ok(v)
  }

  function ParseDate(fs: Fields): (r: Parsed<Value>)
    ensures r.Ok? ==> !r.value.Mapping?
  {
    if |fs| != 1 then Raises
    else match Get(fs, DATE_NAME)
      case Int(n) => if IsInt64(n) then Ok(DatetimeMs(n)) else Raises
      case Int64(n) => if IsInt64(n) then Ok(DatetimeMs(n)) else Raises
      case _ => Outside
  }

  function ParseLegacyRegex(fs: Fields): (r: Parsed<Value>)
  {
    var pattern := Get(fs, REGEX_NAME);
    if IsStr(pattern) || pattern.RawBytes? || pattern.Binary? then Outside else Ok(Mapping(fs))
  }

  function ParseKey(fs: Fields, name: Bytes, key: Value): (r: Parsed<Value>)
  {
    if Get(fs, name) != Int(1) || |fs| != 1 then Raises else Ok(key)
  }

  function ParseBinary(lib: Library, fs: Fields): (r: Parsed<Value>)
    ensures r.Ok? ==> !r.value.Mapping?
  {
    var binary := Get(fs, BINARY_NAME);
    if HasKey(fs, TYPE_NAME) || !binary.Mapping? then Outside
    else
      var b64, subtype := Get(binary.fields, BASE64_NAME), Get(binary.fields, SUB_TYPE_NAME);
      if !IsStr(b64) || !IsStr(subtype) || |binary.fields| != 2 then Raises
      else if !b64.Text? || !subtype.Text? then Outside
      else
        var data, code := lib.fromBase64(b64.utf8), FromHex(subtype.utf8);
        if data.None? || code.None? || |code.value| != 1 then Outside
        else if code.value[0] == 0 then Ok(RawBytes(data.value))
        else Ok(Binary(data.value, code.value[0]))
  }

  function ParseCode(fs: Fields): (r: Parsed<Value>)
    ensures r.Ok? ==> !r.value.Mapping?
  {
    if exists i :: 0 <= i < |fs| && fs[i].key != CODE_NAME && fs[i].key != SCOPE_NAME then Raises
    else
      var code, scope := Get(fs, CODE_NAME), Get(fs, SCOPE_NAME);
      if !IsStr(code) then Raises
      else if !code.Text? then Outside
      else if scope.Null? then Ok(Code(code.utf8))
      else if scope.Mapping? then Ok(CodeWithScope(code.utf8, scope.fields))
      else Raises
  }

  function ParseUuid(fs: Fields): (r: Parsed<Value>)
    ensures r.Ok? ==> !r.value.Mapping?
  {
    if |fs| != 1 || !IsStr(Get(fs, UUID_NAME)) then Raises else Outside
  }

  function ParseLong(fs: Fields): (r: Parsed<Value>)
    ensures r.Ok? ==> !r.value.Mapping?
  {
    if |fs| != 1 then Raises
    else match Get(fs, NUMBER_LONG_NAME)
      case Text(s) => if ParseInt(s).Some? then Ok(Int64(ParseInt(s).value)) else Outside
      case Int(n) => Ok(Int64(n))
      case Int64(n) => Ok(Int64(n))
      case _ => Outside
  }

  function ParseTimestamp(fs: Fields): (r: Parsed<Value>)
    ensures r.Ok? ==> !r.value.Mapping?
  {
    var tsp := Get(fs, TIMESTAMP_NAME);
    if !tsp.Mapping? then Outside
    else if !HasKey(tsp.fields, T_NAME) || !HasKey(tsp.fields, I_NAME) then Raises
    else
      var t, i := Get(tsp.fields, T_NAME), Get(tsp.fields, I_NAME);
      if !t.Int? || !i.Int? then Outside
      else if !IsUint32(t.n) || !IsUint32(i.n) then Raises
      else Ok(Timestamp(t.n, i.n))
  }

  function ParseDecimal(lib: Library, fs: Fields): (r: Parsed<Value>)
    ensures r.Ok? ==> !r.value.Mapping?
  {
    var text := Get(fs, NUMBER_DECIMAL_NAME);
    if |fs| != 1 || !IsStr(text) then Raises
    else if !text.Text? then Outside
    else
      var d := lib.decimalOf(text.utf8);
      if d.None? || !Decimal.InContext(d.value) then Outside else Ok(Decimal128(Decimal.Bid(Decimal.Pack(d.value))))
  }

  function ParseDbPointer(fs: Fields): (r: Parsed<Value>)
    ensures r.Ok? ==> !r.value.Mapping?
  {
    var v := Get(fs, DB_POINTER_NAME);
    if |fs| != 1 || !v.DBRef? || !v.database.Null? || !v.id.ObjectId? || v.extra != [] then Raises else Ok(v)
  }

  function ParseRegularExpression(fs: Fields): (r: Parsed<Value>)
    ensures r.Ok? ==> !r.value.Mapping?
  {
    var regex := Get(fs, REGULAR_EXPRESSION_NAME);
    if |fs| != 1 then Raises
    else if !regex.Mapping? then Outside
    else
      var pattern, options := Get(regex.fields, PATTERN_NAME), Get(regex.fields, OPTIONS_NAME);
      if |regex.fields| != 2 || !IsStr(options) || !HasKey(regex.fields, PATTERN_NAME) then Raises
      else if !options.Text? || !pattern.Text? then Outside
      else Ok(Regex(pattern.utf8, FlagsOfLetters(options.utf8)))
  }

  function ParseSymbol(fs: Fields): (r: Parsed<Value>)
    ensures r.Ok? ==> !r.value.Mapping?
  {
    if |fs| != 1 then Raises
    else match Get(fs, SYMBOL_NAME)
      case Text(s) => Ok(Text(s))
      case _ => Outside
  }

  function ParseInt32(fs: Fields): (r: Parsed<Value>)
    ensures r.Ok? ==> !r.value.Mapping?
  {
    var text := Get(fs, NUMBER_INT_NAME);
    if |fs| != 1 || !IsStr(text) then Raises
    else if !text.Text? || ParseInt(text.utf8).None? then Outside
    else Ok(Int(ParseInt(text.utf8).value))
  }

  function ParseDouble(lib: Library, fs: Fields): (r: Parsed<Value>)
    ensures r.Ok? ==> !r.value.Mapping?
  {
    var text := Get(fs, NUMBER_DOUBLE_NAME);
    if |fs| != 1 || !IsStr(text) then Raises
    else if !text.Text? || lib.doubleOf(text.utf8).None? then Outside
    else Ok(Float(lib.doubleOf(text.utf8).value))
  }

  /** `object_hook`, on an object whose members have been read. */
  function ObjectHook(lib: Library, fs: Fields): (r: Parsed<Value>)
  {
    match FirstParser(fs)
    case None => Ok(Mapping(fs))
    case Some(parser) =>
      match parser
      case OidParser => ParseOid(fs)
      case RefParser => ParseRef(fs)
      case DateParser => ParseDate(fs)
      case LegacyRegexParser => ParseLegacyRegex(fs)
      case MinKeyParser => ParseKey(fs, MIN_KEY_NAME, MinKey)
      case MaxKeyParser => ParseKey(fs, MAX_KEY_NAME, MaxKey)
      case BinaryParser => ParseBinary(lib, fs)
      case CodeParser => ParseCode(fs)
      case UuidParser => ParseUuid(fs)
      case UndefinedParser => Ok(Null)
      case NumberLongParser => ParseLong(fs)
      case TimestampParser => ParseTimestamp(fs)
      case NumberDecimalParser => ParseDecimal(lib, fs)
      case DbPointerParser => ParseDbPointer(fs)
      case RegularExpressionParser => ParseRegularExpression(fs)
      case SymbolParser => ParseSymbol(fs)
      case NumberIntParser => ParseInt32(fs)
      case NumberDoubleParser => ParseDouble(lib, fs)
  }

  /** A JSON tree read with the hook applied to every object, innermost first. */
  function Parse(lib: Library, j: Json): (r: Parsed<Value>)
    decreases j, 1
  {
    match j
    case JString(s) => Ok(Text(s))
    case JInt(n) => Ok(Int(n))
    case JBool(b) => Ok(Bool(b))
    case JNull => Ok(Null)
    case JLeft => Raises
    case JArray(items) =>
      var vs := ParseItems(lib, items);
      if vs.Ok? then Ok(List(vs.value)) else if vs.Raises? then Raises else Outside
    case JObject(members) =>
      var fs := ParseAll(lib, members);
      if fs.Ok? then ObjectHook(lib, fs.value) else if fs.Raises? then Raises else Outside
  }

  function ParseAll(lib: Library, ms: seq<Member>): (r: Parsed<Fields>)
    decreases ms, 0
  {
    if ms == [] then Ok([])
    else
      var v := Parse(lib, ms[0].value);
      if !v.Ok? then (if v.Raises? then Raises else Outside)
      else
        var rest := ParseAll(lib, ms[1..]);
        if rest.Ok? then Ok([Field(ms[0].key, v.value)] + rest.value) else rest
  }

  function ParseItems(lib: Library, items: seq<Json>): (r: Parsed<seq<Value>>)
    decreases items, 0
  {
    if items == [] then Ok([])
    else
      var v := Parse(lib, items[0]);
      if !v.Ok? then (if v.Raises? then Raises else Outside)
      else
        var rest := ParseItems(lib, items[1..]);
        if rest.Ok? then Ok([v.value] + rest.value) else rest
  }

  // ---- what must be true of a value -----------------------------------------------------

  /** The hook returns a document unchanged: no key has a parser, or the first one that has hands the
      document back, because it is not shaped like a DBRef or its `$regex` is neither str nor bytes. */
  predicate HandedBack(fs: Fields)
  {
    match FirstParser(fs)
    case None => true
    case Some(parser) =>
      || (parser.RefParser? && !LooksLikeDBRef(fs))
      || (parser.LegacyRegexParser? && !IsPattern(Get(fs, REGEX_NAME)))
  }

  predicate IsPattern(v: Value) { IsStr(v) || v.RawBytes? || v.Binary? }

  /** Extra fields that a DBRef can be converted and rebuilt with. */
  predicate KeywordSafe(fs: Fields)
  {
    && NoReserved(fs) && !Clashes(fs)
    && !HasKey(fs, ITEMS_NAME) && !HasKey(fs, ITER_NAME) && !HasKey(fs, EXTRA_NAME)
  }

  /** The bits are the preferred ones of a number, or those of the one NaN that text can name. */
  predicate PlainDecimal(bid: Word16)
  {
    var w := WordsOf(bid);
    if IsDecimalNan(Decimal.Unpack(w)) then w == Decimal.Pack(Decimal.QuietNaN(false)) else Decimal.Preferred(w)
  }

  /** Every document in the value is handed back, every DBRef can be rebuilt, and every NaN and every
      Decimal128 has the bits that its text stands for. */
  predicate JsonPlain(v: Value)
    decreases v, 1
  {
    match v
    case Mapping(fs) => HandedBack(fs) && JsonPlainAll(fs)
    case List(items) => JsonPlainItems(items)
    case CodeWithScope(_, scope) => HandedBack(scope) && JsonPlainAll(scope)
    case DBRef(c, id, db, extra) =>
      JsonPlain(c) && JsonPlain(id) && JsonPlain(db) && JsonPlainAll(extra) && KeywordSafe(extra)
    case Float(bits) => !IsNan(bits) || bits == QUIET_NAN
    case Decimal128(bid) => PlainDecimal(bid)
    case _ => true
  }

  predicate JsonPlainAll(fs: Fields)
    decreases fs, 0
  {
    fs != [] ==> JsonPlain(fs[0].value) && JsonPlainAll(fs[1..])
  }

  predicate JsonPlainItems(items: seq<Value>)
    decreases items, 0
  {
    items != [] ==> JsonPlain(items[0]) && JsonPlainItems(items[1..])
  }

  /** What converting and reading a value should come to. */
  ghost predicate Restores(lib: Library, v: Value)
  {
    Convert(lib, v).Made? && Parse(lib, Convert(lib, v).value) == Ok(ReadBack(v))
  }

  ghost predicate RestoresAll(lib: Library, fs: Fields)
  {
    ConvertAll(lib, fs).Made? && ParseAll(lib, ConvertAll(lib, fs).value) == Ok(ReadBackAll(fs))
  }

  // ---- wrappers -------------------------------------------------------------------------

  lemma {:induction false} ParserNames()
    ensures ParserOf(OID_NAME) == Some(OidParser) && ParserOf(REF_KEY) == Some(RefParser)
    ensures ParserOf(DATE_NAME) == Some(DateParser) && ParserOf(BINARY_NAME) == Some(BinaryParser)
    ensures ParserOf(MIN_KEY_NAME) == Some(MinKeyParser) && ParserOf(MAX_KEY_NAME) == Some(MaxKeyParser)
    ensures ParserOf(CODE_NAME) == Some(CodeParser) && ParserOf(NUMBER_LONG_NAME) == Some(NumberLongParser)
    ensures ParserOf(TIMESTAMP_NAME) == Some(TimestampParser)
    ensures ParserOf(NUMBER_DECIMAL_NAME) == Some(NumberDecimalParser)
    ensures ParserOf(REGULAR_EXPRESSION_NAME) == Some(RegularExpressionParser)
    ensures ParserOf(NUMBER_INT_NAME) == Some(NumberIntParser)
    ensures ParserOf(NUMBER_DOUBLE_NAME) == Some(NumberDoubleParser)
  {
    assert MIN_KEY_NAME[2] != MAX_KEY_NAME[2];
    assert CODE_NAME[1] != DATE_NAME[1];
    assert TIMESTAMP_NAME[1] != UNDEFINED_NAME[1];
    assert BINARY_NAME[1] != MIN_KEY_NAME[1] && BINARY_NAME[1] != MAX_KEY_NAME[1];
    assert NUMBER_INT_NAME[1] != UNDEFINED_NAME[1] && NUMBER_INT_NAME[1] != TIMESTAMP_NAME[1];
    assert NUMBER_INT_NAME[1] != DB_POINTER_NAME[1];
  }

  lemma {:induction false} PlainNames()
    ensures ParserOf(BASE64_NAME) == None && ParserOf(SUB_TYPE_NAME) == None
    ensures ParserOf(PATTERN_NAME) == None && ParserOf(OPTIONS_NAME) == None
    ensures ParserOf(T_NAME) == None && ParserOf(I_NAME) == None
  {
    assert BASE64_NAME[0] != 0x24 && SUB_TYPE_NAME[0] != 0x24 && PATTERN_NAME[0] != 0x24 && OPTIONS_NAME[0] != 0x24;
    assert T_NAME[0] != 0x24 && I_NAME[0] != 0x24;
    assert forall key :: ParserOf(key).Some? ==> key[0] == 0x24;
  }

  lemma {:induction false} ParseCons(lib: Library, m: Member, ms: seq<Member>, v: Value, fs: Fields)
    requires Parse(lib, m.value) == Ok(v) && ParseAll(lib, ms) == Ok(fs)
    ensures ParseAll(lib, [m] + ms) == Ok([Field(m.key, v)] + fs)
  {
    hide Parse;
    assert ([m] + ms)[1..] == ms;
  }

  lemma {:induction false} ParseObject(lib: Library, ms: seq<Member>, fs: Fields)
    requires ParseAll(lib, ms) == Ok(fs)
    ensures Parse(lib, JObject(ms)) == ObjectHook(lib, fs)
  {
    hide ObjectHook;
  }

  lemma {:induction false} ParseNothing(lib: Library)
    ensures ParseAll(lib, []) == Ok([])
  {
  }

  /** An object with one member. */
  lemma {:induction false} ParseOne(lib: Library, key: Bytes, j: Json, v: Value)
    requires Parse(lib, j) == Ok(v)
    ensures Parse(lib, Wrap(key, j)) == ObjectHook(lib, [Field(key, v)])
    ensures Get([Field(key, v)], key) == v
    ensures FirstParser([Field(key, v)]) == ParserOf(key)
  {
    hide ObjectHook, ParserOf, Parse;
    ParseNothing(lib);
    ParseCons(lib, Member(key, j), [], v, []);
    assert [Member(key, j)] + [] == [Member(key, j)];
    assert [Field(key, v)] + [] == [Field(key, v)];
    ParseObject(lib, [Member(key, j)], [Field(key, v)]);
    assert [Field(key, v)][1..] == [];
  }

  /** An object with two members. */
  lemma {:induction false} ParseTwo(lib: Library, k1: Bytes, j1: Json, v1: Value, k2: Bytes, j2: Json, v2: Value)
    requires Parse(lib, j1) == Ok(v1) && Parse(lib, j2) == Ok(v2) && k1 != k2
    ensures var fs := [Field(k1, v1), Field(k2, v2)];
            && Parse(lib, JObject([Member(k1, j1), Member(k2, j2)])) == ObjectHook(lib, fs)
            && Get(fs, k1) == v1 && Get(fs, k2) == v2 && HasKey(fs, k1) && HasKey(fs, k2)
            && FirstParser(fs) == if ParserOf(k1).Some? then ParserOf(k1) else ParserOf(k2)
  {
    hide ObjectHook, ParserOf, Parse;
    var fs := [Field(k1, v1), Field(k2, v2)];
    ParseNothing(lib);
    ParseCons(lib, Member(k2, j2), [], v2, []);
    assert [Member(k2, j2)] + [] == [Member(k2, j2)] && [Field(k2, v2)] + [] == [Field(k2, v2)];
    ParseCons(lib, Member(k1, j1), [Member(k2, j2)], v1, [Field(k2, v2)]);
    assert [Member(k1, j1)] + [Member(k2, j2)] == [Member(k1, j1), Member(k2, j2)];
    assert [Field(k1, v1)] + [Field(k2, v2)] == fs;
    ParseObject(lib, [Member(k1, j1), Member(k2, j2)], fs);
    assert fs[1..] == [Field(k2, v2)] && [Field(k2, v2)][1..] == [];
    assert FirstParser([]) == None;
    assert FirstParser([Field(k2, v2)]) == ParserOf(k2);
    assert fs[0].key == k1 && fs[1].key == k2;
  }

  // ---- leaves ---------------------------------------------------------------------------

  lemma {:induction false} RestoresInt(lib: Library, name: Bytes, n: int)
    requires name == NUMBER_INT_NAME || name == NUMBER_LONG_NAME
    ensures Parse(lib, Wrap(name, JString(CDigits.SignedDigits(n))))
            == Ok(if name == NUMBER_INT_NAME then Int(n) else Int64(n))
  {
    hide CDigits.SignedDigits, ParseInt, ParserOf, Parse;
    ParserNames();
    ParseSignedDigits(n);
    var text := CDigits.SignedDigits(n);
    ParseText(lib, text);
    ParseOne(lib, name, JString(text), Text(text));
  }

  lemma {:induction false} ParseText(lib: Library, s: Bytes)
    ensures Parse(lib, JString(s)) == Ok(Text(s))
  {
  }

  lemma {:induction false} RestoresDate(lib: Library, ms: int64)
    ensures Parse(lib, Wrap(DATE_NAME, Wrap(NUMBER_LONG_NAME, JString(CDigits.SignedDigits(ms))))) == Ok(DatetimeMs(ms))
  {
    hide CDigits.SignedDigits, ParserOf, Parse;
    ParserNames();
    RestoresInt(lib, NUMBER_LONG_NAME, ms);
    ParseOne(lib, DATE_NAME, Wrap(NUMBER_LONG_NAME, JString(CDigits.SignedDigits(ms))), Int64(ms));
  }

  lemma {:induction false} RestoresDouble(lib: Library, bits: Word8)
    requires Inverses(lib)
    ensures Parse(lib, Wrap(NUMBER_DOUBLE_NAME, JString(DoubleText(lib, bits))))
            == Ok(Float(if IsNan(bits) then QUIET_NAN else bits))
  {
    hide ParserOf, Parse;
    ParserNames();
    ParseText(lib, DoubleText(lib, bits));
    ParseOne(lib, NUMBER_DOUBLE_NAME, JString(DoubleText(lib, bits)), Text(DoubleText(lib, bits)));
  }

  lemma {:induction false} DoubleIff(lib: Library, bits: Word8)
    requires Inverses(lib)
    ensures Restores(lib, Float(bits)) <==> !IsNan(bits) || bits == QUIET_NAN
  {
    hide Parse, Inverses, DoubleText;
    RestoresDouble(lib, bits);
  }

  lemma {:induction false} RestoresNumber(lib: Library, v: Value)
    requires v.Int? || v.Int64? || v.DatetimeMs?
    ensures Restores(lib, v)
  {
    hide CDigits.SignedDigits, Parse;
    match v
    case Int(n) =>
      NamesDiffer();
      RestoresInt(lib, if IsInt32(n) then NUMBER_INT_NAME else NUMBER_LONG_NAME, n);
    case Int64(n) =>
      NamesDiffer();
      RestoresInt(lib, NUMBER_LONG_NAME, n);
    case DatetimeMs(ms) => RestoresDate(lib, ms);
  }

  lemma {:induction false} NamesDiffer()
    ensures NUMBER_INT_NAME != NUMBER_LONG_NAME
  {
  }

  /** A decimal text is read as the packed form of a decimal of the context. */
  lemma {:induction false} DecimalIsRead(lib: Library, text: Bytes)
    ensures Parse(lib, Wrap(NUMBER_DECIMAL_NAME, JString(text)))
            == var d := lib.decimalOf(text);
               if d.None? || !Decimal.InContext(d.value) then Outside
                   else Ok(Decimal128(Decimal.Bid(Decimal.Pack(d.value))))
  {
    hide ParserOf, Decimal.Pack, Decimal.Bid, Decimal.InContext, Parse;
    ParserNames();
    ParseText(lib, text);
    ParseOne(lib, NUMBER_DECIMAL_NAME, JString(text), Text(text));
  }

  lemma {:induction false} DecimalIff(lib: Library, bid: Word16)
    requires Inverses(lib)
    ensures Restores(lib, Decimal128(bid)) <==> PlainDecimal(bid)
  {
    hide Decimal.Unpack, Decimal.Pack, Decimal.Bid, Decimal.InContext, Decimal.Preferred, Decimal.LongForm, Parse,
         FromLe;
    var w := WordsOf(bid);
    var d := Decimal.Unpack(w);
    Decimal.BidOfFromBid(bid);
    Decimal.LargePowers();
    Decimal.RepacksIff(w);
    var shown := Shown(lib, w);
    if shown.Some? {
      var text := if IsDecimalNan(shown.value) then NAN_NAME else lib.decimalText(shown.value);
      DecimalIsRead(lib, text);
      var x := lib.decimalOf(text);
      if x.Some? && Decimal.InContext(x.value) {
        SameBidSameWords(x.value, bid);
      }
    }
    Decimal.PreferredIsInContext(w);
    NanIsInContext();
  }

  lemma {:induction false} NanIsInContext()
    ensures Decimal.InContext(Decimal.QuietNaN(false))
  {
  }

  /** Packing `x` gives these sixteen bytes exactly if it gives their words, and then `x` is what they mean. */
  lemma {:induction false} SameBidSameWords(x: Decimal.Number, bid: Word16)
    requires Decimal.InContext(x)
    ensures Decimal.Bid(Decimal.Pack(x)) == bid <==> Decimal.Pack(x) == WordsOf(bid)
    ensures Decimal.Pack(x) == WordsOf(bid) ==> Decimal.Unpack(WordsOf(bid)) == x
  {
    hide Decimal.Unpack, Decimal.Pack, Decimal.InContext;
    Decimal.BidOfFromBid(bid);
    Decimal.PackIsBounded(x);
    Decimal.FromBidOfBid(Decimal.Pack(x));
    Decimal.UnpackPack(x);
  }

  lemma {:induction false} RestoresBinary(lib: Library, data: Bytes, subtype: byte)
    requires Inverses(lib)
    ensures Parse(lib, BinaryJson(lib, data, subtype))
            == Ok(if subtype == 0 then RawBytes(data) else Binary(data, subtype))
  {
    hide ParserOf, Hex, FromHex, Parse;
    ParserNames();
    PlainNames();
    HexRoundTrip([subtype]);
    var b64, code := lib.base64(data), Hex([subtype]);
    ParseText(lib, b64);
    ParseText(lib, code);
    ParseTwo(lib, BASE64_NAME, JString(b64), Text(b64), SUB_TYPE_NAME, JString(code), Text(code));
    var inner := JObject([Member(BASE64_NAME, JString(b64)), Member(SUB_TYPE_NAME, JString(code))]);
    var fs := [Field(BASE64_NAME, Text(b64)), Field(SUB_TYPE_NAME, Text(code))];
    ParseOne(lib, BINARY_NAME, inner, Mapping(fs));
    assert !HasKey([Field(BINARY_NAME, Mapping(fs))], TYPE_NAME);
  }

  lemma {:induction false} RestoresRegex(lib: Library, v: Value)
    requires v.Regex?
    ensures Convert(lib, v).Made? && Parse(lib, Convert(lib, v).value) == Ok(ReadBack(v))
  {
    hide ParserOf, FlagLetters, FlagsOfLetters, StoredFlags, Parse;
    ParserNames();
    PlainNames();
    FlagsRoundTrip(v.flags);
    var pattern, letters := v.pattern, FlagLetters(v.flags);
    ParseText(lib, pattern);
    ParseText(lib, letters);
    ParseTwo(lib, PATTERN_NAME, JString(pattern), Text(pattern), OPTIONS_NAME, JString(letters), Text(letters));
    var inner := JObject([Member(PATTERN_NAME, JString(pattern)), Member(OPTIONS_NAME, JString(letters))]);
    var fs := [Field(PATTERN_NAME, Text(pattern)), Field(OPTIONS_NAME, Text(letters))];
    ParseOne(lib, REGULAR_EXPRESSION_NAME, inner, Mapping(fs));
  }

  lemma {:induction false} ParseNumber(lib: Library, n: int)
    ensures Parse(lib, JInt(n)) == Ok(Int(n))
  {
  }

  lemma {:induction false} RestoresTimestamp(lib: Library, v: Value)
    requires v.Timestamp?
    ensures Convert(lib, v).Made? && Parse(lib, Convert(lib, v).value) == Ok(v)
  {
    hide ParserOf, Parse;
    ParserNames();
    PlainNames();
    ParseNumber(lib, v.time);
    ParseNumber(lib, v.inc);
    ParseTwo(lib, T_NAME, JInt(v.time), Int(v.time), I_NAME, JInt(v.inc), Int(v.inc));
    var inner := JObject([Member(T_NAME, JInt(v.time)), Member(I_NAME, JInt(v.inc))]);
    ParseOne(lib, TIMESTAMP_NAME, inner, Mapping([Field(T_NAME, Int(v.time)), Field(I_NAME, Int(v.inc))]));
  }

  lemma {:induction false} RestoresSimple(lib: Library, v: Value)
    requires v.Text? || v.Bool? || v.Null? || v.ObjectId? || v.Code? || v.MinKey? || v.MaxKey?
    ensures Convert(lib, v).Made? && Parse(lib, Convert(lib, v).value) == Ok(ReadBack(v))
  {
    hide ParserOf, Hex, FromHex, Parse;
    ParserNames();
    match v
    case ObjectId(oid) =>
      HexRoundTrip(oid);
      ParseText(lib, Hex(oid));
      ParseOne(lib, OID_NAME, JString(Hex(oid)), Text(Hex(oid)));
    case Code(code) =>
      ParseText(lib, code);
      ParseOne(lib, CODE_NAME, JString(code), Text(code));
      CodeOnly(code);
    case MinKey =>
      ParseNumber(lib, 1);
      ParseOne(lib, MIN_KEY_NAME, JInt(1), Int(1));
    case MaxKey =>
      ParseNumber(lib, 1);
      ParseOne(lib, MAX_KEY_NAME, JInt(1), Int(1));
    case Text(s) => ParseText(lib, s);
    case Bool(b) => ParseConstants(lib, b);
    case Null => ParseConstants(lib, true);
  }

  lemma {:induction false} ParseConstants(lib: Library, b: bool)
    ensures Parse(lib, JBool(b)) == Ok(Bool(b)) && Parse(lib, JNull) == Ok(Null)
  {
  }

  lemma {:induction false} CodeOnly(code: Bytes)
    ensures ParseCode([Field(CODE_NAME, Text(code))]) == Ok(Code(code))
  {
    var fs := [Field(CODE_NAME, Text(code))];
    assert CODE_NAME[1] == 0x63 && SCOPE_NAME[1] == 0x73;
    assert fs[1..] == [];
    assert Get(fs[1..], SCOPE_NAME) == Null;
  }

  /** A leaf comes back if and only if it is no exotic NaN and no other spelling of a decimal. */
  lemma {:induction false} LeafIff(lib: Library, v: Value)
    requires Inverses(lib) && IsLeaf(v)
    ensures Restores(lib, v) <==> JsonPlain(v)
  {
    hide Parse, Inverses, BinaryJson, PlainDecimal;
    match v
    case RawBytes(data) => RestoresBinary(lib, data, 0);
    case Binary(data, subtype) => RestoresBinary(lib, data, subtype);
    case Decimal128(bid) => DecimalIff(lib, bid);
    case Regex(_, _) => RestoresRegex(lib, v);
    case Timestamp(_, _) => RestoresTimestamp(lib, v);
    case Int(_) => RestoresNumber(lib, v);
    case Int64(_) => RestoresNumber(lib, v);
    case Float(bits) => DoubleIff(lib, bits);
    case DatetimeMs(_) => RestoresNumber(lib, v);
    case _ => RestoresSimple(lib, v);
  }

  // ---- documents ------------------------------------------------------------------------

  /** The hook gives back a document as it is, or something that is no document. */
  lemma {:induction false} HookIsIdentity(lib: Library, x: Fields, y: Fields)
    ensures ObjectHook(lib, x) == Ok(Mapping(y)) <==> x == y && HandedBack(x)
  {
    hide FirstParser, ParseOid, ParseDate, ParseCode, ParseUuid, ParseLong, ParseTimestamp, ParseDbPointer,
         ParseRegularExpression, ParseSymbol, ParseInt32, ParseBinary, ParseDecimal, ParseDouble, LooksLikeDBRef,
             Get, Remove,
         HasKey, IsPattern;
    RefGivesBack(x, y);
    RegexGivesBack(x, y);
  }

  lemma {:induction false} RefGivesBack(x: Fields, y: Fields)
    ensures ParseRef(x) == Ok(Mapping(y)) <==> x == y && !LooksLikeDBRef(x)
  {
    hide LooksLikeDBRef, Clashes, HasKey, Get, Remove;
  }

  lemma {:induction false} RegexGivesBack(x: Fields, y: Fields)
    ensures ParseLegacyRegex(x) == Ok(Mapping(y)) <==> x == y && !IsPattern(Get(x, REGEX_NAME))
  {
  }

  lemma {:induction false} FirstParserByKeys(a: Fields, b: Fields)
    requires |a| == |b| && forall i :: 0 <= i < |a| ==> a[i].key == b[i].key
    ensures FirstParser(a) == FirstParser(b)
  {
    hide ParserOf;
    if a != [] {
      FirstParserByKeys(a[1..], b[1..]);
    }
  }

  lemma {:induction false} HandedBackKeeps(fs: Fields)
    ensures HandedBack(ReadBackAll(fs)) <==> HandedBack(fs)
  {
    hide FirstParser, LooksLikeDBRef, ReadBackAll, Get;
    FirstParserByKeys(ReadBackAll(fs), fs);
    ReadBackKeepsDBRefShape(fs);
    ReadBackKeepsShape(fs, REGEX_NAME);
    PatternKeeps(Get(fs, REGEX_NAME));
  }

  lemma {:induction false} PatternKeeps(v: Value)
    ensures IsPattern(ReadBack(v)) <==> IsPattern(v)
  {
  }

  /** Field by field. */
  lemma {:induction false} AllIff(lib: Library, fs: Fields)
    requires fs != []
    ensures RestoresAll(lib, fs) <==> Restores(lib, fs[0].value) && RestoresAll(lib, fs[1..])
  {
    hide Parse, Convert, ReadBack;
    var f := fs[0];
    if Convert(lib, f.value).Made? && ConvertAll(lib, fs[1..]).Made? {
      var m, ms := Member(f.key, Convert(lib, f.value).value), ConvertAll(lib, fs[1..]).value;
      assert ([m] + ms)[1..] == ms;
      var rest := ParseAll(lib, ms);
      if Parse(lib, m.value).Ok? && rest.Ok? {
        HeadAndTail(Field(f.key, Parse(lib, m.value).value), rest.value, Field(f.key, ReadBack(f.value)),
                    ReadBackAll(fs[1..]));
      }
    }
  }

  lemma {:induction false} HeadAndTail(a: Field, s: Fields, b: Field, t: Fields)
    ensures [a] + s == [b] + t <==> a == b && s == t
  {
    if [a] + s == [b] + t {
      assert a == ([a] + s)[0] == ([b] + t)[0] == b;
      assert s == ([a] + s)[1..] == ([b] + t)[1..] == t;
    }
  }

  lemma {:induction false} AllAppend(lib: Library, a: Fields, b: Fields)
    ensures RestoresAll(lib, a + b) <==> RestoresAll(lib, a) && RestoresAll(lib, b)
  {
    hide RestoresAll, Restores;
    if a == [] {
      assert a + b == b;
      NothingRestores(lib);
    } else {
      AllAppend(lib, a[1..], b);
      assert (a + b)[0] == a[0] && (a + b)[1..] == a[1..] + b;
      AllIff(lib, a);
      AllIff(lib, a + b);
    }
  }

  lemma {:induction false} NothingRestores(lib: Library)
    ensures RestoresAll(lib, [])
  {
  }

  lemma {:induction false} OneRestores(lib: Library, f: Field)
    ensures RestoresAll(lib, [f]) <==> Restores(lib, f.value)
  {
    hide RestoresAll, Restores;
    AllIff(lib, [f]);
    assert [f][1..] == [];
    NothingRestores(lib);
  }

  /** A mapping comes back if and only if its fields do and the hook hands it back. */
  lemma {:induction false} MappingIff(lib: Library, fs: Fields)
    ensures Restores(lib, Mapping(fs)) <==> RestoresAll(lib, fs) && HandedBack(fs)
  {
    hide ObjectHook, HandedBack, ParseAll, ConvertAll, ReadBackAll;
    if ConvertAll(lib, fs).Made? {
      var read := ParseAll(lib, ConvertAll(lib, fs).value);
      if read.Ok? {
        HookIsIdentity(lib, read.value, ReadBackAll(fs));
        HandedBackKeeps(fs);
      }
    }
  }

  lemma {:induction false} ListIff(lib: Library, items: seq<Value>)
    ensures Restores(lib, List(items)) <==>
            ConvertItems(lib, items).Made?
            && ParseItems(lib, ConvertItems(lib, items).value) == Ok(ReadBackItems(items))
  {
    hide ParseItems, ConvertItems, ReadBackItems;
  }

  /** A scope comes back if and only if it would as a mapping. */
  lemma {:induction false} ScopeIff(lib: Library, code: Bytes, scope: Fields)
    ensures Restores(lib, CodeWithScope(code, scope)) <==> Restores(lib, Mapping(scope))
  {
    hide ParserOf, Parse, ConvertAll, ReadBackAll, ObjectHook;
    ParserNames();
    ParseText(lib, code);
    if ConvertAll(lib, scope).Made? {
      var j := JObject(ConvertAll(lib, scope).value);
      TwoMembers(lib, code, j);
      if Parse(lib, j).Ok? {
        var m := Parse(lib, j).value;
        ParseTwo(lib, CODE_NAME, JString(code), Text(code), SCOPE_NAME, j, m);
        CodeAndScope(lib, code, m);
      }
    }
  }

  /** An object whose second member cannot be read cannot be read. */
  lemma {:induction false} TwoMembers(lib: Library, code: Bytes, j: Json)
    ensures !Parse(lib, j).Ok? ==> !Parse(lib, JObject([Member(CODE_NAME, JString(code)), Member(SCOPE_NAME, j)])).Ok?
  {
    hide ObjectHook;
    var ms := [Member(CODE_NAME, JString(code)), Member(SCOPE_NAME, j)];
    assert ms[1..] == [Member(SCOPE_NAME, j)];
    if !Parse(lib, j).Ok? {
      assert !ParseAll(lib, ms[1..]).Ok?;
      assert !ParseAll(lib, ms).Ok?;
    }
  }

  lemma {:induction false} CodeAndScope(lib: Library, code: Bytes, m: Value)
    ensures var fs := [Field(CODE_NAME, Text(code)), Field(SCOPE_NAME, m)];
            ObjectHook(lib, fs)
            == if m.Null? then Ok(Code(code)) else if m.Mapping? then Ok(CodeWithScope(code, m.fields)) else Raises
  {
    hide ParserOf;
    ParserNames();
    var fs := [Field(CODE_NAME, Text(code)), Field(SCOPE_NAME, m)];
    assert CODE_NAME[1] != SCOPE_NAME[1];
    assert fs[1..] == [Field(SCOPE_NAME, m)];
    assert Get(fs[1..], SCOPE_NAME) == m;
  }

  // ---- DBRefs ---------------------------------------------------------------------------

  lemma {:induction false} ReadBackOfStr(v: Value)
    ensures (ReadBack(v).Null? <==> v.Null?) && (IsStr(ReadBack(v)) <==> IsStr(v))
  {
  }

  lemma {:induction false} SafeAfterReadBack(fs: Fields)
    ensures NoReserved(ReadBackAll(fs)) <==> NoReserved(fs)
    ensures Clashes(ReadBackAll(fs)) <==> Clashes(fs)
    ensures HasKey(ReadBackAll(fs), EXTRA_NAME) <==> HasKey(fs, EXTRA_NAME)
  {
    hide HasKey;
    ReadBackKeepsShape(fs, SELF_NAME);
    ReadBackKeepsShape(fs, COLLECTION_NAME);
    ReadBackKeepsShape(fs, ID_NAME);
    ReadBackKeepsShape(fs, DATABASE_NAME);
    ReadBackKeepsShape(fs, EXTRA_NAME);
    forall i | 0 <= i < |fs| && NoReserved(ReadBackAll(fs)) ensures !Reserved(fs[i].key) {
      assert !Reserved(ReadBackAll(fs)[i].key);
    }
  }

  /** An object that starts with `$ref` goes to the DBRef parser. */
  lemma {:induction false} RefIsFirst(lib: Library, fs: Fields)
    requires fs != [] && fs[0].key == REF_KEY
    ensures ObjectHook(lib, fs) == ParseRef(fs)
  {
    hide ParserOf, ParseRef;
    ParserNames();
  }

  lemma {:induction false} UpdateKeepsHead(fs: Fields, more: Fields)
    requires fs != []
    ensures Update(fs, more) != [] && Update(fs, more)[0].key == fs[0].key
    decreases |more|
  {
    if more != [] {
      UpdateKeepsHead(Put(fs, more[0].key, more[0].value), more[1..]);
    }
  }

  lemma {:induction false} ParsedKeys(lib: Library, fs: Fields)
    requires ConvertAll(lib, fs).Made? && ParseAll(lib, ConvertAll(lib, fs).value).Ok?
    ensures var r := ParseAll(lib, ConvertAll(lib, fs).value).value;
            |r| == |fs| && forall i :: 0 <= i < |fs| ==> r[i].key == fs[i].key
  {
    hide Convert, Parse;
    if fs != [] {
      var ms := ConvertAll(lib, fs).value;
      assert ms[1..] == ConvertAll(lib, fs[1..]).value;
      ParsedKeys(lib, fs[1..]);
    }
  }

  /** Where the extra fields are safe, a DBRef comes back if and only if its parts do. */
  lemma {:induction false} SafeRefIff(lib: Library, v: Value)
    requires v.DBRef? && WellTyped(v) && KeywordSafe(v.extra)
    ensures Restores(lib, v) <==> RestoresAll(lib, RefFields(v))
  {
    hide ParseAll, ConvertAll, HasKey, Clashes, ObjectHook, WellTyped, AsDoc, RefFields, Recognise, Distinct,
         ReadBackAll;
    WellTypedRef(v);
    NoReservedNoClash(v);
    NoClashAppends(v);
    ReadBackFields(v);
    if ConvertAll(lib, RefFields(v)).Made? {
      var read := ParseAll(lib, ConvertAll(lib, RefFields(v)).value);
      if read.Ok? {
        ParsedKeys(lib, RefFields(v));
        RebuiltIff(lib, v, read.value);
      }
    }
  }

  lemma {:induction false} ReadBackFields(v: Value)
    requires v.DBRef?
    ensures ReadBack(v).DBRef? && ReadBackAll(RefFields(v)) == RefFields(ReadBack(v))
  {
    hide ReadBackAll, RefBase;
    ReadBackAppend(RefBase(v), v.extra);
    ReadBackBase(v);
    ReadBackExtra(v);
  }

  lemma {:induction false} ReadBackExtra(v: Value)
    requires v.DBRef?
    ensures ReadBack(v).DBRef? && ReadBack(v).extra == ReadBackAll(v.extra)
  {
    hide ReadBackAll;
  }

  lemma {:induction false} ReadBackBase(v: Value)
    requires v.DBRef?
    ensures ReadBackAll(RefBase(v)) == RefBase(ReadBack(v))
  {
    ReadBackOfStr(v.database);
    var base := RefBase(v);
    var c, id, db := Field(REF_KEY, v.collection), Field(DOLLAR_ID_KEY, v.id), Field(DB_KEY, v.database);
    assert ReadBackAll([db]) == [Field(DB_KEY, ReadBack(v.database))] + ReadBackAll([db][1..]);
    assert base == [c] + ([id] + if v.database.Null? then [] else [db]);
    assert base[1..] == [id] + if v.database.Null? then [] else [db];
    assert base[1..][1..] == if v.database.Null? then [] else [db];
  }

  /** Fields with a DBRef's own keys are rebuilt to it if and only if they are its fields. */
  lemma {:induction false} RebuiltIff(lib: Library, v: Value, read: Fields)
    requires v.DBRef? && KeywordSafe(v.extra) && IsStr(v.collection) && (v.database.Null? || IsStr(v.database))
    requires |read| == |RefFields(v)| && forall i :: 0 <= i < |read| ==> read[i].key == RefFields(v)[i].key
    ensures ObjectHook(lib, read) == Ok(ReadBack(v)) <==> read == RefFields(ReadBack(v))
  {
    hide Clashes, HasKey, ObjectHook, Recognise, Get, Remove;
    var r := ReadBack(v);
    ReadBackOfStr(v.collection);
    ReadBackOfStr(v.database);
    SafeAfterReadBack(v.extra);
    assert read[0].key == RefFields(v)[0].key == REF_KEY;
    RefIsFirst(lib, read);
    if read == RefFields(r) {
      RecogniseRefFields(r);
    }
    if ParseRef(read) == Ok(r) {
      RebuiltTells(v, read);
    }
  }

  /** Taking such fields apart and putting them together again. */
  lemma {:induction false} RebuiltTells(v: Value, read: Fields)
    requires v.DBRef? && NoReserved(v.extra) && IsStr(v.collection) && (v.database.Null? || IsStr(v.database))
    requires |read| == |RefFields(v)| && forall i :: 0 <= i < |read| ==> read[i].key == RefFields(v)[i].key
    requires Recognise(read) == ReadBack(v)
    ensures read == RefFields(ReadBack(v))
  {
    hide Recognise, ReadBack, NoReserved;
    GetsTell(v, read);
    var w := Assembled(v, read);
    AssembledFields(v, read);
    RecogniseRefFields(w);
  }

  /** The DBRef with the values of `read` in the places of `v`. */
  function Assembled(v: Value, read: Fields): (w: Value)
    requires v.DBRef? && |read| == |RefFields(v)|
  {
    DBRef(read[0].value, read[1].value, if v.database.Null? then Null else read[2].value, read[|RefBase(v)|..])
  }

  lemma {:induction false} AssembledFields(v: Value, read: Fields)
    requires v.DBRef? && NoReserved(v.extra)
    requires |read| == |RefFields(v)| && forall i :: 0 <= i < |read| ==> read[i].key == RefFields(v)[i].key
    requires !v.database.Null? ==> !read[2].value.Null?
    ensures RefFields(Assembled(v, read)) == read && NoReserved(Assembled(v, read).extra)
  {
    var k := |RefBase(v)|;
    var w := Assembled(v, read);
    assert RefFields(v)[0].key == REF_KEY && RefFields(v)[1].key == DOLLAR_ID_KEY;
    assert !v.database.Null? ==> RefFields(v)[2].key == DB_KEY;
    assert RefBase(w) == read[..k] by {
      assert forall i :: 0 <= i < k ==> RefBase(w)[i] == Field(read[i].key, read[i].value);
    }
    assert read[..k] + read[k..] == read;
    forall i | 0 <= i < |w.extra| ensures !Reserved(w.extra[i].key) {
      assert w.extra[i].key == RefFields(v)[k + i].key == v.extra[i].key;
    }
  }

  /** Which fields the DBRef parser takes for the parts. */
  lemma {:induction false} GetsTell(v: Value, read: Fields)
    requires v.DBRef? && NoReserved(v.extra) && (v.database.Null? || IsStr(v.database))
    requires |read| == |RefFields(v)| && forall i :: 0 <= i < |read| ==> read[i].key == RefFields(v)[i].key
    requires Recognise(read) == ReadBack(v)
    ensures IsStr(read[0].value)
    ensures !v.database.Null? ==> !read[2].value.Null? && IsStr(read[2].value)
  {
    hide Remove, HasKey;
    ReadBackOfStr(v.database);
    assert RefFields(v)[0].key == REF_KEY && RefFields(v)[1].key == DOLLAR_ID_KEY;
    assert Get(read, REF_KEY) == read[0].value;
    if !v.database.Null? {
      assert RefFields(v)[2].key == DB_KEY;
      assert read[1..][1..][0] == read[2] && read[1..][0] == read[1];
      assert Get(read[1..][1..], DB_KEY) == read[2].value;
      assert Get(read[1..], DB_KEY) == read[2].value;
      assert Get(read, DB_KEY) == read[2].value;
    }
  }

  /** Where they are not, it does not come back. */
  lemma {:induction false} UnsafeRefIsLost(lib: Library, v: Value)
    requires v.DBRef? && Restores(lib, v)
    ensures KeywordSafe(v.extra)
  {
    hide ParseAll, ConvertAll, HasKey, Clashes, ObjectHook, Get, NoReserved, Update;
    var read := ParseAll(lib, ConvertAll(lib, AsDoc(v)).value);
    ParsedKeys(lib, AsDoc(v));
    UpdateKeepsHead(RefBase(v), v.extra);
    RefIsFirst(lib, read.value);
    RecogniseHasNoReserved(read.value);
    SafeAfterReadBack(v.extra);
  }

  lemma {:induction false} RecogniseHasNoReserved(fs: Fields)
    ensures Recognise(fs).DBRef? ==> NoReserved(Recognise(fs).extra)
  {
    hide LooksLikeDBRef, Get;
    if LooksLikeDBRef(fs) {
      var a := Remove(fs, REF_KEY);
      var b := Remove(a, DOLLAR_ID_KEY);
      var c := Remove(b, DB_KEY);
      if HasKey(b, REF_KEY) {
        RemoveOnlyDrops(a, DOLLAR_ID_KEY, REF_KEY);
      }
      RemoveOnlyDrops(b, DB_KEY, REF_KEY);
      RemoveOnlyDrops(b, DB_KEY, DOLLAR_ID_KEY);
      RemoveOnlyDrops(a, DOLLAR_ID_KEY, REF_KEY);
      forall i | 0 <= i < |c| ensures !Reserved(c[i].key) {
        HasAt(c, i);
      }
    }
  }

  lemma {:induction false} RemoveOnlyDrops(fs: Fields, key: Bytes, k: Bytes)
    ensures !HasKey(fs, k) ==> !HasKey(Remove(fs, key), k)
  {
    if fs != [] {
      RemoveOnlyDrops(fs[1..], key, k);
      if !HasKey(fs, k) {
        assert forall i :: 0 <= i < |fs[1..]| ==> fs[1..][i] == fs[i + 1];
        assert !HasKey(fs[1..], k) && fs[0].key != k;
        var r := Remove(fs, key);
        assert forall i :: 0 < i < |r| && fs[0].key != key ==> r[i] == Remove(fs[1..], key)[i - 1];
      }
    }
  }

  lemma {:induction false} RefPartsIff(lib: Library, v: Value)
    requires v.DBRef?
    ensures RestoresAll(lib, RefFields(v)) <==>
            && Restores(lib, v.collection) && Restores(lib, v.id) && Restores(lib, v.database)
            && RestoresAll(lib, v.extra)
  {
    hide RestoresAll, Restores;
    var ref, rid := Field(REF_KEY, v.collection), Field(DOLLAR_ID_KEY, v.id);
    var db := if v.database.Null? then [] else [Field(DB_KEY, v.database)];
    AllAppend(lib, RefBase(v), v.extra);
    assert RefBase(v) == [ref] + ([rid] + db);
    AllAppend(lib, [ref], [rid] + db);
    AllAppend(lib, [rid], db);
    OneRestores(lib, ref);
    OneRestores(lib, rid);
    NothingRestores(lib);
    OneRestores(lib, Field(DB_KEY, v.database));
    NullRestores(lib);
  }

  lemma {:induction false} NullRestores(lib: Library)
    ensures Restores(lib, Null)
  {
  }

  // ---- every value ----------------------------------------------------------------------

  /** Canonical Extended JSON gives back what reading the BSON bytes would give if and only if every
      document is handed back by the hook, every DBRef can be rebuilt, and every NaN and Decimal128
      has the bits that its text stands for. */
  lemma {:induction false} RestoresIff(lib: Library, v: Value)
    requires Inverses(lib) && WellTyped(v)
    ensures Restores(lib, v) <==> JsonPlain(v)
    decreases v, 1
  {
    hide Inverses, HandedBack, KeywordSafe, RestoresAll, Restores, Distinct, PlainDecimal, RefFields;
    match v
    case Mapping(fs) =>
      MappingIff(lib, fs);
      FieldsIff(lib, fs);
    case List(items) =>
      ListIff(lib, items);
      ItemsIff(lib, items);
    case CodeWithScope(code, scope) =>
      ScopeIff(lib, code, scope);
      MappingIff(lib, scope);
      FieldsIff(lib, scope);
    case DBRef(c, id, db, extra) =>
      RestoresIff(lib, c);
      RestoresIff(lib, id);
      RestoresIff(lib, db);
      FieldsIff(lib, extra);
      RefPartsIff(lib, v);
      RefIff(lib, v);
    case _ => LeafIff(lib, v);
  }

  lemma {:induction false} RefIff(lib: Library, v: Value)
    requires v.DBRef? && WellTyped(v)
    ensures Restores(lib, v) <==> KeywordSafe(v.extra) && RestoresAll(lib, RefFields(v))
  {
    hide RestoresAll, Restores, KeywordSafe, WellTyped, RefFields;
    if KeywordSafe(v.extra) {
      SafeRefIff(lib, v);
    } else if Restores(lib, v) {
      UnsafeRefIsLost(lib, v);
    }
  }

  lemma {:induction false} FieldsIff(lib: Library, fs: Fields)
    requires Inverses(lib) && forall i :: 0 <= i < |fs| ==> WellTyped(fs[i].value)
    ensures RestoresAll(lib, fs) <==> JsonPlainAll(fs)
    decreases fs, 0
  {
    hide Inverses, WellTyped, JsonPlain, RestoresAll, Restores;
    if fs == [] {
      NothingRestores(lib);
    } else {
      RestoresIff(lib, fs[0].value);
      FieldsIff(lib, fs[1..]);
      AllIff(lib, fs);
    }
  }

  lemma {:induction false} ItemsIff(lib: Library, items: seq<Value>)
    requires Inverses(lib) && forall i :: 0 <= i < |items| ==> WellTyped(items[i])
    ensures (ConvertItems(lib, items).Made?
             && ParseItems(lib, ConvertItems(lib, items).value) == Ok(ReadBackItems(items)))
            <==> JsonPlainItems(items)
    decreases items, 0
  {
    hide Parse, Inverses, Convert, WellTyped, JsonPlain, ReadBack;
    if items != [] {
      RestoresIff(lib, items[0]);
      ItemsIff(lib, items[1..]);
      ItemsStep(lib, items);
    }
  }

  lemma {:induction false} ItemsStep(lib: Library, items: seq<Value>)
    requires items != []
    ensures (ConvertItems(lib, items).Made?
             && ParseItems(lib, ConvertItems(lib, items).value) == Ok(ReadBackItems(items)))
            <==> Restores(lib, items[0])
                 && ConvertItems(lib, items[1..]).Made?
                 && ParseItems(lib, ConvertItems(lib, items[1..]).value) == Ok(ReadBackItems(items[1..]))
  {
    hide Parse, Convert, ReadBack;
    if Convert(lib, items[0]).Made? && ConvertItems(lib, items[1..]).Made? {
      var j, js := Convert(lib, items[0]).value, ConvertItems(lib, items[1..]).value;
      assert ([j] + js)[1..] == js;
      var rest := ParseItems(lib, js);
      if Parse(lib, j).Ok? && rest.Ok? {
        var a, b := Parse(lib, j).value, ReadBack(items[0]);
        var s, t := rest.value, ReadBackItems(items[1..]);
        if [a] + s == [b] + t {
          assert a == ([a] + s)[0] == ([b] + t)[0] == b;
          assert s == ([a] + s)[1..] == ([b] + t)[1..] == t;
        }
      }
    }
  }

  // ---- the same bytes -------------------------------------------------------------------

  lemma {:induction false} StoredFlagsSameLetters(flags: nat)
    ensures FlagLetters(StoredFlags(flags)) == FlagLetters(flags)
  {
    hide Letters, Mask, HasFlag;
    MaskHasFlags(HasFlag(flags, IGNORECASE), HasFlag(flags, LOCALE), HasFlag(flags, MULTILINE),
                 HasFlag(flags, DOTALL), HasFlag(flags, UNICODE), HasFlag(flags, VERBOSE));
  }

  lemma {:induction false} StoredFlagsSameBytes(flags: nat)
    ensures EncodeFlags(StoredFlags(flags)) == EncodeFlags(flags)
  {
    hide FlagLetters, EncodeFlags;
    StoredFlagsSameLetters(flags);
    FlagBytes(flags);
    FlagBytes(StoredFlags(flags));
  }

  /** What is read back has the same BSON encoding as what was written, hence the same BSON type. */
  lemma {:induction false} SameEncoding(name: Bytes, v: Value, checkKeys: bool)
    ensures EncodeValue(name, ReadBack(v), checkKeys) == EncodeValue(name, v, checkKeys)
    decreases v, 1
  {
    hide FlagLetters, StoredFlags, Enclose, Tagged, EncodeText, PackInt32, PackInt64;
    match v
    case Mapping(fs) => SameFields(fs, checkKeys);
    case List(items) => SameItems(items, 0, checkKeys);
    case Regex(pattern, flags) => StoredFlagsSameBytes(flags);
    case CodeWithScope(_, scope) => SameFields(scope, false);
    case DBRef(c, id, db, extra) =>
      SameEncoding(REF_KEY + [0], c, checkKeys);
      SameEncoding(DOLLAR_ID_KEY + [0], id, checkKeys);
      SameEncoding(DB_KEY + [0], db, checkKeys);
      SameFields(extra, checkKeys);
      NullStaysNull(db);
    case _ =>
  }

  lemma {:induction false} NullStaysNull(v: Value)
    ensures ReadBack(v).Null? <==> v.Null?
  {
  }

  lemma {:induction false} SameFields(fs: Fields, checkKeys: bool)
    ensures EncodeFields(ReadBackAll(fs), checkKeys) == EncodeFields(fs, checkKeys)
    decreases fs, 0
  {
    hide EncodeValue, ReadBack;
    if fs != [] {
      SameEncoding(fs[0].key + [0], fs[0].value, checkKeys);
      SameFields(fs[1..], checkKeys);
      assert ReadBackAll(fs)[1..] == ReadBackAll(fs[1..]);
    }
  }

  lemma {:induction false} SameItems(items: seq<Value>, i: nat, checkKeys: bool)
    ensures EncodeItems(ReadBackItems(items), i, checkKeys) == EncodeItems(items, i, checkKeys)
    decreases items, 0
  {
    hide EncodeValue, ReadBack, Digits;
    if items != [] {
      SameEncoding(Digits(i) + [0], items[0], checkKeys);
      SameItems(items[1..], i + 1, checkKeys);
      assert ReadBackItems(items)[1..] == ReadBackItems(items[1..]);
    }
  }

  /** Through canonical Extended JSON and back, such a value keeps its BSON encoding, byte for byte. */
  lemma {:induction false} JsonKeepsTheBytes(lib: Library, v: Value, name: Bytes, checkKeys: bool)
    requires Inverses(lib) && WellTyped(v) && JsonPlain(v)
    ensures Convert(lib, v).Made?
    ensures var back := Parse(lib, Convert(lib, v).value);
            back.Ok? && EncodeValue(name, back.value, checkKeys) == EncodeValue(name, v, checkKeys)
  {
    hide Inverses, WellTyped, JsonPlain, Parse, EncodeValue, ReadBack;
    RestoresIff(lib, v);
    SameEncoding(name, v, checkKeys);
  }

  // ---- exactly the same value -----------------------------------------------------------

  /** No int beyond 32 bits outside Int64, no Binary of subtype 0, no flag that has no letter. */
  predicate Exact(v: Value)
    decreases v, 1
  {
    match v
    case Mapping(fs) => ExactAll(fs)
    case List(items) => ExactItems(items)
    case CodeWithScope(_, scope) => ExactAll(scope)
    case DBRef(c, id, db, extra) => Exact(c) && Exact(id) && Exact(db) && ExactAll(extra)
    case Binary(_, subtype) => subtype != 0
    case Int(n) => IsInt32(n)
    case Regex(_, flags) => flags == StoredFlags(flags)
    case _ => true
  }

  predicate ExactAll(fs: Fields)
    decreases fs, 0
  {
    fs != [] ==> Exact(fs[0].value) && ExactAll(fs[1..])
  }

  predicate ExactItems(items: seq<Value>)
    decreases items, 0
  {
    items != [] ==> Exact(items[0]) && ExactItems(items[1..])
  }

  lemma {:induction false} SameIffExact(v: Value)
    ensures ReadBack(v) == v <==> Exact(v)
    decreases v, 1
  {
    hide StoredFlags;
    match v
    case Mapping(fs) => SameFieldsIffExact(fs);
    case List(items) => SameItemsIffExact(items);
    case CodeWithScope(_, scope) => SameFieldsIffExact(scope);
    case DBRef(c, id, db, extra) =>
      SameIffExact(c);
      SameIffExact(id);
      SameIffExact(db);
      SameFieldsIffExact(extra);
    case _ =>
  }

  lemma {:induction false} SameFieldsIffExact(fs: Fields)
    ensures ReadBackAll(fs) == fs <==> ExactAll(fs)
    decreases fs, 0
  {
    hide ReadBack, Exact;
    if fs != [] {
      SameIffExact(fs[0].value);
      SameFieldsIffExact(fs[1..]);
      var r := ReadBackAll(fs);
      assert r[1..] == ReadBackAll(fs[1..]) && r[0].value == ReadBack(fs[0].value) && r[0].key == fs[0].key;
      assert r == [r[0]] + r[1..] && fs == [fs[0]] + fs[1..];
      assert r == fs ==> r[0] == fs[0] && r[1..] == fs[1..];
    }
  }

  lemma {:induction false} SameItemsIffExact(items: seq<Value>)
    ensures ReadBackItems(items) == items <==> ExactItems(items)
    decreases items, 0
  {
    hide ReadBack, Exact;
    if items != [] {
      SameIffExact(items[0]);
      SameItemsIffExact(items[1..]);
      var r := ReadBackItems(items);
      assert r[1..] == ReadBackItems(items[1..]) && r[0] == ReadBack(items[0]);
      assert r == [r[0]] + r[1..] && items == [items[0]] + items[1..];
      assert r == items ==> r[0] == items[0] && r[1..] == items[1..];
    }
  }

  /** The very same value comes back: for values without a wide int, a Binary of subtype 0 or a flag
      without a letter exactly if they are plain, and for plain values exactly if they have none of
      these. */
  lemma {:induction false} JsonRoundTrip(lib: Library, v: Value)
    requires Inverses(lib) && WellTyped(v)
    ensures var same := Convert(lib, v).Made? && Parse(lib, Convert(lib, v).value) == Ok(v);
            && (Exact(v) ==> (same <==> JsonPlain(v)))
            && (JsonPlain(v) ==> (same <==> Exact(v)))
  {
    hide Inverses, WellTyped, JsonPlain, Parse, ReadBack, Exact;
    RestoresIff(lib, v);
    SameIffExact(v);
  }

  // ---- inputs of each kind --------------------------------------------------------------

  /** A document with a type wrapper's key is taken for a number. */
  lemma {:induction false} WrapperIsMistaken(lib: Library)
    ensures var doc := Mapping([Field(NUMBER_INT_NAME, Text([0x37]))]);
            Convert(lib, doc).Made? && Parse(lib, Convert(lib, doc).value) == Ok(Int(7))
  {
    hide ParserOf;
    ParserNames();
    var f := Field(NUMBER_INT_NAME, Text([0x37]));
    assert [f][1..] == [];
    assert ConvertAll(lib, [f][1..]) == Made([]);
    assert ConvertAll(lib, [f]) == Made([Member(NUMBER_INT_NAME, JString([0x37]))] + []);
    assert [Member(NUMBER_INT_NAME, JString([0x37]))] + [] == [Member(NUMBER_INT_NAME, JString([0x37]))];
    ParseText(lib, [0x37]);
    ParseOne(lib, NUMBER_INT_NAME, JString([0x37]), Text([0x37]));
    assert ParseNat([0x37]) == Some(7);
  }

  /** A document with `$ref` but no `$id` is handed back. */
  lemma {:induction false} HalfRefIsHandedBack(lib: Library)
    requires Inverses(lib)
    ensures var doc := Mapping([Field(REF_KEY, Text([0x63]))]);
            JsonPlain(doc) && Restores(lib, doc)
  {
    hide ParserOf, Inverses, Restores;
    ParserNames();
    var fs := [Field(REF_KEY, Text([0x63]))];
    assert fs[1..] == [];
    assert !HasKey(fs, DOLLAR_ID_KEY);
    assert WellTyped(fs[0].value) && JsonPlain(fs[0].value) && JsonPlainAll(fs[1..]);
    assert FirstParser(fs) == Some(RefParser);
    RestoresIff(lib, Mapping(fs));
  }
}
