/**
 Encoding followed by decoding.  The encoder writes exactly the bytes of a well-formed parse
 tree (`EncodeIsDerivation`), so by the grammar theorems decoding returns that tree's meaning;
 what remains is to compare the meaning with the value that was written.
 */
module RoundTrip {
  import opened Bytes
  import opened Bson
  import opened Grammar
  import opened Encoder
  import Decoder
  import Parsing

  // ---- the tree the encoder writes ------------------------------------------------------

  ghost function TreeOf(v: Value): (n: Node)
    decreases v, 1
  {
    match v
    case Float(bits) => NDouble(bits)
    case Text(s) => NString(s)
    case Mapping(fs) => NDocument(TreesOf(fs))
    case List(items) => NArray(ItemTrees(items, 0))
    case RawBytes(data) => NBinary(0, data)
    case Binary(data, subtype) => NBinary(subtype, data)
    case ObjectId(oid) => NObjectId(oid)
    case Bool(b) => NBoolean(b)
    case DatetimeMs(ms) => NDatetime(ms)
    case Null => NNull
    case Regex(pattern, flags) => NRegex(pattern, FlagLetters(flags))
    case Code(code) => NCode(code)
    case CodeWithScope(code, scope) => NCodeWithScope(code, TreesOf(scope))
    case Int(n) => if IsInt32(n) then NInt32(n) else if IsInt64(n) then NInt64(n) else NNull
    case Int64(n) => if IsInt64(n) then NInt64(n) else NNull
    case Timestamp(time, inc) => NTimestamp(inc, time)
    case Decimal128(bid) => NDecimal128(bid)
    case MinKey => NMinKey
    case MaxKey => NMaxKey
    case DBRef(_, _, _, _) => NDocument(RefTrees(v))
  }

  ghost function TreesOf(fs: Fields): (es: Elements)
    decreases fs, 0
  {
    if fs == [] then [] else [Element(fs[0].key, TreeOf(fs[0].value))] + TreesOf(fs[1..])
  }

  ghost function ItemTrees(items: seq<Value>, i: nat): (es: Elements)
    decreases items, 0
  {
    if items == [] then [] else [Element(Digits(i), TreeOf(items[0]))] + ItemTrees(items[1..], i + 1)
  }

  ghost function RefTrees(v: Value): (es: Elements)
    requires v.DBRef?
    decreases v, 0
  {
    [Element(REF_KEY, TreeOf(v.collection)), Element(DOLLAR_ID_KEY, TreeOf(v.id))]
    + (if v.database.Null? then [] else [Element(DB_KEY, TreeOf(v.database))])
    + TreesOf(v.extra)
  }

  // ---- encoding is derivation -----------------------------------------------------------

  lemma {:induction false} EncloseIsContainer(body: Bytes)
    requires Enclose(Some(body)).Some?
    ensures Enclose(Some(body)).value == Container(body)
  {
  }

  lemma {:induction false} RegexIsDerivation(pattern: Bytes, flags: nat)
    requires EncodeRegex(pattern, flags).Some?
    ensures WellFormed(NRegex(pattern, FlagLetters(flags)))
    ensures EncodeRegex(pattern, flags).value == Payload(NRegex(pattern, FlagLetters(flags)))
  {
    hide ValidUtf8, FlagLetters, EncodeFlags;
    FlagsRoundTrip(flags);
    FlagBytes(flags);
  }

  lemma {:induction false} YieldAppend(a: Elements, b: Elements)
    ensures Yield(a + b) == Yield(a) + Yield(b)
  {
    hide YieldOne;
    if a == [] {
      assert a + b == b;
    } else {
      YieldAppend(a[1..], b);
      assert (a + b)[1..] == a[1..] + b;
      assert (a + b)[0] == a[0];
    }
  }

  lemma {:induction false} WellFormedAppend(a: Elements, b: Elements, named: bool)
    requires WellFormedAll(a, named) && WellFormedAll(b, named)
    ensures WellFormedAll(a + b, named)
  {
    hide ValidUtf8;
    if a == [] {
      assert a + b == b;
    } else {
      WellFormedAppend(a[1..], b, named);
      assert (a + b)[1..] == a[1..] + b;
    }
  }

  /** An element `t name payload` is what its tree derives. */
  lemma {:induction false} ElementBytes(name: Bytes, n: Node)
    ensures [TypeCode(n)] + (name + [0]) + Payload(n) == YieldOne(Element(name, n))
  {
  }

  lemma {:induction false} BinaryIsDerivation(data: Bytes, subtype: byte)
    requires EncodeBinary(data, subtype).Some?
    ensures WellFormed(NBinary(subtype, data)) && EncodeBinary(data, subtype).value == Payload(NBinary(subtype, data))
  {
    if subtype == 2 {
      assert PackInt32(|data| + 4) + [2] + (PackInt32(|data|) + data)
          == PackInt32(|data| + 4) + [2] + PackInt32(|data|) + data;
    }
  }

  lemma {:induction false} LeafIsDerivation(name: Bytes, v: Value, checkKeys: bool)
    requires !v.Mapping? && !v.List? && !v.CodeWithScope? && !v.DBRef?
    requires EncodeValue(name + [0], v, checkKeys).Some?
    ensures WellFormed(TreeOf(v))
    ensures EncodeValue(name + [0], v, checkKeys).value == YieldOne(Element(name, TreeOf(v)))
  {
    hide ValidUtf8, FlagLetters, EncodeFlags, EncodeRegex, EncodeBinary, YieldOne;
    ElementBytes(name, TreeOf(v));
    match v
    case Regex(pattern, flags) => RegexIsDerivation(pattern, flags);
    case Binary(data, subtype) => BinaryIsDerivation(data, subtype);
    case RawBytes(data) => BinaryIsDerivation(data, 0);
    case Null => assert name + [0] + [] == name + [0];
    case MinKey => assert name + [0] + [] == name + [0];
    case MaxKey => assert name + [0] + [] == name + [0];
    case _ =>
  }

  lemma {:induction false} EncodeIsDerivation(name: Bytes, v: Value, checkKeys: bool)
    requires EncodeValue(name + [0], v, checkKeys).Some?
    decreases v, 1
    ensures WellFormed(TreeOf(v))
    ensures EncodeValue(name + [0], v, checkKeys).value == YieldOne(Element(name, TreeOf(v)))
  {
    hide ValidUtf8, YieldOne, EncodeText, Container, StringBytes, EncodeRefElements, EncodeFields, EncodeItems;
    match v {
      case Mapping(fs) =>
        FieldsAreDerivation(fs, checkKeys);
        EncloseIsContainer(Yield(TreesOf(fs)));
        ElementBytes(name, TreeOf(v));
      case List(items) =>
        ItemsAreDerivation(items, 0, checkKeys);
        EncloseIsContainer(Yield(ItemTrees(items, 0)));
        ElementBytes(name, TreeOf(v));
      case CodeWithScope(code, scope) =>
        FieldsAreDerivation(scope, false);
        ScopeIsDerivation(name, code, scope, checkKeys);
      case DBRef(_, _, _, _) =>
        RefIsDerivation(v, checkKeys);
        EncloseIsContainer(Yield(RefTrees(v)));
        ElementBytes(name, TreeOf(v));
      case _ => LeafIsDerivation(name, v, checkKeys);
    }
  }

  lemma {:induction false} ScopeIsDerivation(name: Bytes, code: Bytes, scope: Fields, checkKeys: bool)
    requires EncodeValue(name + [0], CodeWithScope(code, scope), checkKeys).Some?
    requires WellFormedAll(TreesOf(scope), true)
    requires EncodeFields(scope, false) == Some(Yield(TreesOf(scope)))
    ensures WellFormed(TreeOf(CodeWithScope(code, scope)))
    ensures EncodeValue(name + [0], CodeWithScope(code, scope), checkKeys).value
            == YieldOne(Element(name, TreeOf(CodeWithScope(code, scope))))
  {
    hide ValidUtf8, EncodeFields;
    EncloseIsContainer(Yield(TreesOf(scope)));
    ElementBytes(name, TreeOf(CodeWithScope(code, scope)));
  }

  lemma {:induction false} FieldsAreDerivation(fs: Fields, checkKeys: bool)
    requires EncodeFields(fs, checkKeys).Some?
    decreases fs, 0
    ensures WellFormedAll(TreesOf(fs), true)
    ensures EncodeFields(fs, checkKeys) == Some(Yield(TreesOf(fs)))
  {
    hide ValidUtf8, YieldOne, EncodeValue;
    if fs != [] {
      EncodeIsDerivation(fs[0].key, fs[0].value, checkKeys);
      FieldsAreDerivation(fs[1..], checkKeys);
      assert TreesOf(fs)[1..] == TreesOf(fs[1..]);
    }
  }

  lemma {:induction false} ItemsAreDerivation(items: seq<Value>, i: nat, checkKeys: bool)
    requires EncodeItems(items, i, checkKeys).Some?
    decreases items, 0
    ensures WellFormedAll(ItemTrees(items, i), false)
    ensures EncodeItems(items, i, checkKeys) == Some(Yield(ItemTrees(items, i)))
  {
    hide ValidUtf8, YieldOne, EncodeValue, Digits;
    if items != [] {
      EncodeIsDerivation(Digits(i), items[0], checkKeys);
      ItemsAreDerivation(items[1..], i + 1, checkKeys);
      assert ItemTrees(items, i)[1..] == ItemTrees(items[1..], i + 1);
      assert NoNul(Digits(i));
    }
  }

  lemma {:induction false} RefKeysAreText()
    ensures NoNul(REF_KEY) && NoNul(DOLLAR_ID_KEY) && NoNul(DB_KEY)
    ensures ValidUtf8(REF_KEY) && ValidUtf8(DOLLAR_ID_KEY) && ValidUtf8(DB_KEY)
  {
    AsciiIsUtf8(REF_KEY);
    AsciiIsUtf8(DOLLAR_ID_KEY);
    AsciiIsUtf8(DB_KEY);
  }

  lemma {:induction false} SingleElement(e: Element)
    ensures Yield([e]) == YieldOne(e)
    ensures NoNul(e.name) && ValidUtf8(e.name) && WellFormed(e.node) ==> WellFormedAll([e], true)
  {
    hide YieldOne, ValidUtf8;
    assert [e][1..] == [];
    assert Yield([]) == [];
  }

  lemma {:induction false} RefIsDerivation(v: Value, checkKeys: bool)
    requires v.DBRef? && EncodeRefElements(v, checkKeys).Some?
    decreases v, 0
    ensures WellFormedAll(RefTrees(v), true)
    ensures EncodeRefElements(v, checkKeys) == Some(Yield(RefTrees(v)))
  {
    hide ValidUtf8, YieldOne, EncodeValue, Yield, WellFormedAll, TreesOf;
    RefKeysAreText();
    var ref, rid := Element(REF_KEY, TreeOf(v.collection)), Element(DOLLAR_ID_KEY, TreeOf(v.id));
    EncodeIsDerivation(REF_KEY, v.collection, checkKeys);
    EncodeIsDerivation(DOLLAR_ID_KEY, v.id, checkKeys);
    SingleElement(ref);
    SingleElement(rid);
    assert [ref, rid] == [ref] + [rid];
    YieldAppend([ref], [rid]);
    WellFormedAppend([ref], [rid], true);
    var head := [ref, rid];
    if !v.database.Null? {
      var db := Element(DB_KEY, TreeOf(v.database));
      EncodeIsDerivation(DB_KEY, v.database, checkKeys);
      SingleElement(db);
      YieldAppend(head, [db]);
      WellFormedAppend(head, [db], true);
      head := head + [db];
    } else {
      assert head + [] == head;
      assert Yield(head) + [] == Yield(head);
    }
    FieldsAreDerivation(v.extra, checkKeys);
    YieldAppend(head, TreesOf(v.extra));
    WellFormedAppend(head, TreesOf(v.extra), true);
  }
}
