/**
 The BSON round trip.  `ReadBack` is the value a caller expects to read after writing: the same
 value, except that a wide int comes back as Int64, a Binary of subtype 0 as bytes, and a regular
 expression without the flags BSON cannot carry.  The theorem says when that expectation holds.
 */
module ReadBack {
  import opened Bytes
  import opened Bson
  import opened Grammar
  import opened Encoder
  import opened RoundTrip
  import Decoder
  import Parsing

  function ReadBack(v: Value): (r: Value)
    decreases v, 1
  {
    match v
    case Mapping(fs) => Mapping(ReadBackAll(fs))
    case List(items) => List(ReadBackItems(items))
    case Binary(data, subtype) => if subtype == 0 then RawBytes(data) else v
    case Regex(pattern, flags) => Regex(pattern, StoredFlags(flags))
    case CodeWithScope(code, scope) => CodeWithScope(code, ReadBackAll(scope))
    case Int(n) => if IsInt32(n) then v else Int64(n)
    case DBRef(c, id, db, extra) => DBRef(ReadBack(c), ReadBack(id), ReadBack(db), ReadBackAll(extra))
    case _ => v
  }

  function ReadBackAll(fs: Fields): (r: Fields)
    decreases fs, 0
    ensures |r| == |fs| && forall i :: 0 <= i < |fs| ==> r[i].key == fs[i].key
  {
    if fs == [] then [] else [Field(fs[0].key, ReadBack(fs[0].value))] + ReadBackAll(fs[1..])
  }

  function ReadBackItems(items: seq<Value>): (r: seq<Value>)
    decreases items, 0
  {
    if items == [] then [] else [ReadBack(items[0])] + ReadBackItems(items[1..])
  }

  lemma {:induction false} ReadBackAppend(a: Fields, b: Fields)
    ensures ReadBackAll(a + b) == ReadBackAll(a) + ReadBackAll(b)
  {
    hide ReadBack, ReadBackAll;
    if a == [] {
      assert a + b == b;
      assert ReadBackAll(a) + ReadBackAll(b) == ReadBackAll(b);
    } else {
      ReadBackAppend(a[1..], b);
      ReadBackCons(a);
      ReadBackCons(a + b);
      assert (a + b)[1..] == a[1..] + b && (a + b)[0] == a[0];
      var f := Field(a[0].key, ReadBack(a[0].value));
      assert [f] + (ReadBackAll(a[1..]) + ReadBackAll(b)) == [f] + ReadBackAll(a[1..]) + ReadBackAll(b);
    }
  }

  lemma {:induction false} ReadBackCons(fs: Fields)
    requires fs != []
    ensures ReadBackAll(fs) == [Field(fs[0].key, ReadBack(fs[0].value))] + ReadBackAll(fs[1..])
  {
    hide ReadBack;
  }

  predicate Reserved(key: Bytes) { key == REF_KEY || key == DOLLAR_ID_KEY || key == DB_KEY }

  predicate NoReserved(fs: Fields)
  {
    forall i :: 0 <= i < |fs| ==> !Reserved(fs[i].key)
  }

  /** What Python guarantees of any value: dictionary keys are distinct, a DBRef names its
      collection and database by strings. */
  predicate WellTyped(v: Value)
    decreases v, 1
  {
    match v
    case Mapping(fs) => WellTypedAll(fs)
    case List(items) => WellTypedItems(items)
    case CodeWithScope(_, scope) => WellTypedAll(scope)
    case DBRef(c, id, db, extra) =>
      && IsStr(c) && (db.Null? || IsStr(db))
      && WellTyped(c) && WellTyped(id) && WellTyped(db) && WellTypedAll(extra)
    case _ => true
  }

  predicate WellTypedAll(fs: Fields)
    decreases fs, 0
  {
    Distinct(fs) && forall i :: 0 <= i < |fs| ==> WellTyped(fs[i].value)
  }

  predicate WellTypedItems(items: seq<Value>)
    decreases items, 0
  {
    forall i :: 0 <= i < |items| ==> WellTyped(items[i])
  }

  /** The condition a caller can check: no plain mapping and no Code scope is shaped like a DBRef,
      and no DBRef carries an extra field named `$ref`, `$id` or `$db`. */
  predicate Plain(v: Value)
    decreases v, 1
  {
    match v
    case Mapping(fs) => PlainAll(fs) && !LooksLikeDBRef(fs)
    case List(items) => PlainItems(items)
    case CodeWithScope(_, scope) => PlainAll(scope) && !LooksLikeDBRef(scope)
    case DBRef(c, id, db, extra) =>
      Plain(c) && Plain(id) && Plain(db) && PlainAll(extra) && NoReserved(extra)
    case _ => true
  }

  predicate PlainAll(fs: Fields)
    decreases fs, 0
  {
    fs != [] ==> Plain(fs[0].value) && PlainAll(fs[1..])
  }

  predicate PlainItems(items: seq<Value>)
    decreases items, 0
  {
    items != [] ==> Plain(items[0]) && PlainItems(items[1..])
  }

  // ---- what the written trees mean, field by field --------------------------------------

  ghost function Joined(a: Option<Fields>, b: Option<Fields>): (r: Option<Fields>)
  {
    if a.None? || b.None? then None else Some(a.value + b.value)
  }

  ghost function FieldMeaning(f: Field): (r: Option<Fields>)
  {
    var v := Meaning(TreeOf(f.value));
    if v.None? then None else Some([Field(f.key, v.value)])
  }

  ghost function Meanings(fs: Fields): (r: Option<Fields>)
  {
    if fs == [] then Some([]) else Joined(FieldMeaning(fs[0]), Meanings(fs[1..]))
  }

  ghost function ItemMeanings(items: seq<Value>): (r: Option<seq<Value>>)
  {
    if items == [] then Some([])
    else
      var v, rest := Meaning(TreeOf(items[0])), ItemMeanings(items[1..]);
      if v.None? || rest.None? then None else Some([v.value] + rest.value)
  }

  /** With distinct keys the dictionary loop only ever appends. */
  lemma {:induction false} FoldAppends(fs: Fields, acc: Fields)
    requires Distinct(acc + fs)
    decreases fs
    ensures Fold(TreesOf(fs), acc)
            == (if Meanings(fs).None? then None else Some(acc + Meanings(fs).value))
  {
    hide Meaning, TreeOf, Put;
    if fs == [] {
      assert acc + [] == acc;
    } else {
      var es := TreesOf(fs);
      assert es[1..] == TreesOf(fs[1..]);
      var v := Meaning(TreeOf(fs[0].value));
      if v.Some? {
        var f := Field(fs[0].key, v.value);
        assert !HasKey(acc, fs[0].key) by {
          assert (acc + fs)[|acc|] == fs[0];
          assert forall i :: 0 <= i < |acc| ==> (acc + fs)[i] == acc[i];
        }
        PutNew(acc, fs[0].key, v.value);
        assert Distinct(acc + [f] + fs[1..]) by {
          assert forall i :: 0 <= i < |acc + fs| ==> (acc + [f] + fs[1..])[i].key == (acc + fs)[i].key;
        }
        FoldAppends(fs[1..], acc + [f]);
        if Meanings(fs[1..]).Some? {
          assert acc + [f] + Meanings(fs[1..]).value == acc + ([f] + Meanings(fs[1..]).value);
        }
      }
    }
  }

  lemma {:induction false} ItemsAppend(items: seq<Value>, i: nat, acc: seq<Value>)
    decreases items
    ensures Items(ItemTrees(items, i), acc)
            == (if ItemMeanings(items).None? then None else Some(acc + ItemMeanings(items).value))
  {
    hide Meaning, TreeOf, Digits;
    if items == [] {
      assert acc + [] == acc;
    } else {
      assert ItemTrees(items, i)[1..] == ItemTrees(items[1..], i + 1);
      var v := Meaning(TreeOf(items[0]));
      if v.Some? {
        ItemsAppend(items[1..], i + 1, acc + [v.value]);
        if ItemMeanings(items[1..]).Some? {
          assert acc + [v.value] + ItemMeanings(items[1..]).value
              == acc + ([v.value] + ItemMeanings(items[1..]).value);
        }
      }
    }
  }

  /** Recognition looks only at keys and at which values are strings or None. */
  lemma {:induction false} ReadBackKeepsShape(fs: Fields, key: Bytes)
    ensures Get(ReadBackAll(fs), key) == ReadBack(Get(fs, key))
    ensures HasKey(ReadBackAll(fs), key) == HasKey(fs, key)
  {
    var r := ReadBackAll(fs);
    assert HasKey(r, key) == HasKey(fs, key) by {
      if HasKey(fs, key) {
        var i :| 0 <= i < |fs| && fs[i].key == key;
        assert r[i].key == key;
      }
    }
    if fs != [] {
      ReadBackKeepsShape(fs[1..], key);
      assert r[1..] == ReadBackAll(fs[1..]);
    }
  }

  lemma {:induction false} ReadBackKeepsDBRefShape(fs: Fields)
    ensures LooksLikeDBRef(ReadBackAll(fs)) == LooksLikeDBRef(fs)
  {
    ReadBackKeepsShape(fs, REF_KEY);
    ReadBackKeepsShape(fs, DOLLAR_ID_KEY);
    ReadBackKeepsShape(fs, DB_KEY);
  }

  // ---- DBRef documents ------------------------------------------------------------------

  /** The elements `_encode_dbref` writes: the three parts, then the extra fields one after another. */
  function RefFields(v: Value): (fs: Fields)
    requires v.DBRef?
  {
    RefBase(v) + v.extra
  }

  /** Updating with new, distinct keys appends. */
  lemma {:induction false} UpdateAppends(fs: Fields, more: Fields)
    requires Distinct(fs + more)
    ensures Update(fs, more) == fs + more
    decreases |more|
  {
    hide Put;
    if more == [] {
      assert fs + more == fs;
    } else {
      assert !HasKey(fs, more[0].key) by {
        assert (fs + more)[|fs|] == more[0];
        assert forall i :: 0 <= i < |fs| ==> (fs + more)[i] == fs[i];
      }
      PutNew(fs, more[0].key, more[0].value);
      assert Field(more[0].key, more[0].value) == more[0];
      assert fs + [more[0]] + more[1..] == fs + more;
      UpdateAppends(fs + [more[0]], more[1..]);
    }
  }

  /** Without a clash `as_doc()` is what `_encode_dbref` writes, and it is a dictionary. */
  lemma {:induction false} NoClashAppends(v: Value)
    requires v.DBRef? && Distinct(v.extra) && NoClash(v)
    ensures AsDoc(v) == RefFields(v) && Distinct(AsDoc(v))
  {
    hide HasKey, Update;
    var base := RefBase(v);
    assert base + v.extra == RefFields(v);
    assert Distinct(RefFields(v)) by {
      RefFieldsAreDistinct(v);
    }
    UpdateAppends(base, v.extra);
  }

  lemma {:induction false} RefFieldsAreDistinct(v: Value)
    requires v.DBRef? && Distinct(v.extra) && NoClash(v)
    ensures Distinct(RefFields(v))
  {
    var fs, k := RefFields(v), |RefBase(v)|;
    assert forall i :: k <= i < |fs| ==> fs[i] == v.extra[i - k];
    assert forall i :: 0 <= i < k ==> fs[i] == RefBase(v)[i];
    forall i, j | 0 <= i < k <= j < |fs| ensures fs[i].key != fs[j].key {
      assert fs[j] == v.extra[j - k];
    }
  }

  lemma {:induction false} TreesOfAppend(a: Fields, b: Fields)
    ensures TreesOf(a + b) == TreesOf(a) + TreesOf(b)
  {
    hide TreeOf, TreesOf;
    if a == [] {
      assert a + b == b;
      TreesCons(a);
      assert [] + TreesOf(b) == TreesOf(b);
    } else {
      TreesOfAppend(a[1..], b);
      assert (a + b)[1..] == a[1..] + b && (a + b)[0] == a[0];
      TreesCons(a);
      TreesCons(a + b);
      var e := [Element(a[0].key, TreeOf(a[0].value))];
      assert e + (TreesOf(a[1..]) + TreesOf(b)) == e + TreesOf(a[1..]) + TreesOf(b);
    }
  }

  lemma {:induction false} TreesCons(fs: Fields)
    ensures fs == [] ==> TreesOf(fs) == []
    ensures fs != [] ==> TreesOf(fs) == [Element(fs[0].key, TreeOf(fs[0].value))] + TreesOf(fs[1..])
  {
    hide TreeOf;
  }

  lemma {:induction false} RefTreesAreFields(v: Value)
    requires v.DBRef?
    ensures RefTrees(v) == TreesOf(RefFields(v))
  {
    hide TreeOf;
    var ref, rid := Field(REF_KEY, v.collection), Field(DOLLAR_ID_KEY, v.id);
    var db := if v.database.Null? then [] else [Field(DB_KEY, v.database)];
    TreesOfAppend([ref, rid] + db, v.extra);
    TreesOfAppend([ref, rid], db);
    assert TreesOf([rid]) == [Element(DOLLAR_ID_KEY, TreeOf(v.id))] + TreesOf([]);
    assert [ref, rid][1..] == [rid];
    if !v.database.Null? {
      assert db[1..] == [];
      assert TreesOf(db) == [Element(DB_KEY, TreeOf(v.database))] + TreesOf([]);
    }
  }

  lemma {:induction false} RemoveHead(f: Field, fs: Fields, key: Bytes)
    ensures Remove([f] + fs, key) == (if f.key == key then Remove(fs, key) else [f] + Remove(fs, key))
    ensures Get([f] + fs, key) == (if f.key == key then f.value else Get(fs, key))
  {
    assert ([f] + fs)[1..] == fs;
  }

  lemma {:induction false} NoReservedIsAbsent(fs: Fields)
    requires NoReserved(fs)
    ensures forall key :: Reserved(key) ==> Remove(fs, key) == fs && Get(fs, key) == Null
  {
    forall key | Reserved(key)
      ensures Remove(fs, key) == fs && Get(fs, key) == Null
    {
      assert !HasKey(fs, key);
      RemoveAbsent(fs, key);
      GetAbsent(fs, key);
    }
  }

  /** Decoding recognises exactly the documents `as_doc` writes. */
  lemma {:induction false} RecogniseRefFields(v: Value)
    requires v.DBRef? && IsStr(v.collection) && (v.database.Null? || IsStr(v.database))
    requires NoReserved(v.extra)
    ensures Recognise(RefFields(v)) == v
  {
    hide Remove, Get, HasKey;
    NoReservedIsAbsent(v.extra);
    var ref, rid := Field(REF_KEY, v.collection), Field(DOLLAR_ID_KEY, v.id);
    var tail := (if v.database.Null? then [] else [Field(DB_KEY, v.database)]) + v.extra;
    assert RefFields(v) == [ref] + ([rid] + tail);
    forall key | Reserved(key)
      ensures Remove(tail, key) == (if key == DB_KEY || v.database.Null? then v.extra else tail)
      ensures Get(tail, key) == (if key == DB_KEY then v.database else Null)
    {
      if v.database.Null? {
        assert tail == v.extra;
      } else {
        RemoveHead(Field(DB_KEY, v.database), v.extra, key);
      }
    }
    RemoveHead(ref, [rid] + tail, REF_KEY);
    RemoveHead(ref, [rid] + tail, DOLLAR_ID_KEY);
    RemoveHead(ref, [rid] + tail, DB_KEY);
    RemoveHead(rid, tail, REF_KEY);
    RemoveHead(rid, tail, DOLLAR_ID_KEY);
    RemoveHead(rid, tail, DB_KEY);
    assert Remove(Remove(Remove(RefFields(v), REF_KEY), DOLLAR_ID_KEY), DB_KEY) == v.extra;
    HasAt(RefFields(v), 1);
  }

  lemma {:induction false} HasAt(fs: Fields, i: nat)
    requires i < |fs|
    ensures HasKey(fs, fs[i].key)
  {
  }

  lemma {:induction false} JoinedLaws(a: Option<Fields>, b: Option<Fields>, c: Option<Fields>)
    ensures Joined(a, Joined(b, c)) == Joined(Joined(a, b), c)
    ensures Joined(Some([]), a) == a && Joined(a, Some([])) == a
  {
    if a.Some? && b.Some? && c.Some? {
      assert a.value + (b.value + c.value) == a.value + b.value + c.value;
    }
    if a.Some? {
      assert [] + a.value == a.value && a.value + [] == a.value;
    }
  }

  lemma {:induction false} MeaningsAppend(a: Fields, b: Fields)
    ensures Meanings(a + b) == Joined(Meanings(a), Meanings(b))
  {
    hide FieldMeaning, Joined;
    if a == [] {
      assert a + b == b;
      JoinedLaws(Meanings(b), None, None);
    } else {
      MeaningsAppend(a[1..], b);
      assert (a + b)[1..] == a[1..] + b;
      assert (a + b)[0] == a[0];
      JoinedLaws(FieldMeaning(a[0]), Meanings(a[1..]), Meanings(b));
    }
  }

  lemma {:induction false} MeaningsKeys(fs: Fields)
    requires Meanings(fs).Some?
    ensures |Meanings(fs).value| == |fs|
    ensures forall i :: 0 <= i < |fs| ==> Meanings(fs).value[i].key == fs[i].key
  {
    hide Meaning, TreeOf;
    if fs != [] {
      MeaningsKeys(fs[1..]);
    }
  }

  lemma {:induction false} MeaningsOne(f: Field)
    ensures Meanings([f]) == FieldMeaning(f)
  {
    hide FieldMeaning, Joined;
    assert [f][1..] == [];
    assert Meanings([]) == Some([]);
    JoinedLaws(FieldMeaning(f), None, None);
  }

  /** The string types and None decode to themselves, so recognition is not confused. */
  lemma {:induction false} MeaningKeepsStr(v: Value)
    requires Meaning(TreeOf(v)).Some?
    ensures IsStr(v) ==> IsStr(Meaning(TreeOf(v)).value)
    ensures v.Null? ==> Meaning(TreeOf(v)).value.Null?
  {
    hide Recognise, Fold, TreesOf;
  }

  /** Part by part: what a DBRef without clashing extra fields decodes to. */
  lemma {:induction false} RefMeaning(v: Value)
    requires v.DBRef? && WellTyped(v) && NoReserved(v.extra)
    ensures var c, id, db, extra :=
              Meaning(TreeOf(v.collection)), Meaning(TreeOf(v.id)), Meaning(TreeOf(v.database)), Meanings(v.extra);
            Meaning(TreeOf(v))
            == if c.None? || id.None? || db.None? || extra.None? then None
               else Some(DBRef(c.value, id.value, db.value, extra.value))
  {
    hide Recognise, WellTyped, Meanings;
    var c, id := Meaning(TreeOf(v.collection)), Meaning(TreeOf(v.id));
    var db, extra := Meaning(TreeOf(v.database)), Meanings(v.extra);
    hide Meaning, TreeOf, RefFields;
    WellTypedRef(v);
    MeaningOfRefDocument(v);
    RefFieldsMeanings(v);
    if c.Some? && id.Some? && db.Some? && extra.Some? {
      MeaningKeepsStr(v.collection);
      MeaningKeepsStr(v.database);
      MeaningsKeys(v.extra);
      RecogniseRefFields(DBRef(c.value, id.value, db.value, extra.value));
    }
  }

  lemma {:induction false} WellTypedRef(v: Value)
    requires v.DBRef? && WellTyped(v)
    ensures IsStr(v.collection) && (v.database.Null? || IsStr(v.database)) && Distinct(v.extra)
  {
  }

  lemma {:induction false} NoReservedNoClash(v: Value)
    requires v.DBRef? && NoReserved(v.extra)
    ensures NoClash(v)
  {
  }

  lemma {:induction false} MeaningOfRefDocument(v: Value)
    requires v.DBRef? && WellTyped(v) && NoReserved(v.extra)
    ensures Meaning(TreeOf(v)) == RecogniseAll(Meanings(RefFields(v)))
  {
    hide Recognise, Meanings, WellTyped, RefFields, Distinct, NoReserved, Fold, TreesOf, RefTrees;
    RefTreesAreFields(v);
    WellTypedRef(v);
    NoReservedNoClash(v);
    RefFieldsAreDistinct(v);
    assert [] + RefFields(v) == RefFields(v);
    FoldAppends(RefFields(v), []);
    var ms := Meanings(RefFields(v));
    if ms.Some? {
      assert [] + ms.value == ms.value;
    }
  }

  lemma {:induction false} RefFieldsMeanings(v: Value)
    requires v.DBRef? && (v.database.Null? || IsStr(v.database))
    ensures var c, id, db, extra :=
              Meaning(TreeOf(v.collection)), Meaning(TreeOf(v.id)), Meaning(TreeOf(v.database)), Meanings(v.extra);
            Meanings(RefFields(v))
            == if c.None? || id.None? || db.None? || extra.None? then None
               else Some(RefFields(DBRef(c.value, id.value, db.value, extra.value)))
  {
    hide Meanings, Meaning;
    var ref, rid := Field(REF_KEY, v.collection), Field(DOLLAR_ID_KEY, v.id);
    var db := if v.database.Null? then [] else [Field(DB_KEY, v.database)];
    MeaningsOne(ref);
    MeaningsOne(rid);
    assert [ref, rid] == [ref] + [rid];
    MeaningsAppend([ref], [rid]);
    MeaningsAppend([ref, rid], db);
    MeaningsAppend([ref, rid] + db, v.extra);
    var c, id := Meaning(TreeOf(v.collection)), Meaning(TreeOf(v.id));
    if v.database.Null? {
      EmptyMeanings();
    } else {
      MeaningsOne(Field(DB_KEY, v.database));
      if Meaning(TreeOf(v.database)).Some? {
        MeaningKeepsStr(v.database);
      }
    }
    if c.Some? && id.Some? {
      var head := [Field(REF_KEY, c.value), Field(DOLLAR_ID_KEY, id.value)];
      assert head == [head[0]] + [head[1]] && head + [] == head;
      assert Meanings([ref, rid]) == Some(head);
    }
  }

  lemma {:induction false} EmptyMeanings()
    ensures Meanings([]) == Some([])
    ensures Meaning(TreeOf(Null)) == Some(Null)
  {
  }

  /** Why the condition is needed: when no extra field repeats one of the three keys, the fields of
      a DBRef are a dictionary, it is `as_doc()`, and as a plain mapping it has the DBRef's own bytes. */
  lemma {:induction false} LookalikeHasSameBytes(name: Bytes, v: Value)
    requires v.DBRef? && Distinct(v.extra) && NoClash(v)
    ensures Distinct(AsDoc(v))
    ensures EncodeValue(name, Mapping(AsDoc(v)), false) == EncodeValue(name, v, false)
  {
    NoClashAppends(v);
    RefFieldsAreElements(v);
  }

  lemma {:induction false} RefFieldsAreElements(v: Value)
    requires v.DBRef?
    ensures EncodeFields(RefFields(v), false) == EncodeRefElements(v, false)
  {
    hide EncodeElement;
    var ref, rid := Field(REF_KEY, v.collection), Field(DOLLAR_ID_KEY, v.id);
    var db := if v.database.Null? then [] else [Field(DB_KEY, v.database)];
    EncodeFieldsAppend([ref, rid] + db, v.extra, false);
    EncodeFieldsAppend([ref, rid], db, false);
    assert [ref, rid] == [ref] + [rid];
    EncodeFieldsAppend([ref], [rid], false);
    RefElement(REF_KEY, v.collection);
    RefElement(DOLLAR_ID_KEY, v.id);
    RefElement(DB_KEY, v.database);
  }

  lemma {:induction false} RefElement(key: Bytes, v: Value)
    requires Reserved(key)
    ensures EncodeFields([Field(key, v)], false) == EncodeValue(key + [0], v, false)
  {
    hide EncodeValue, ValidUtf8;
    RefKeysAreText();
    var f := Field(key, v);
    assert [f][1..] == [];
    assert EncodeElement(f, false) == EncodeValue(key + [0], v, false);
    var e := EncodeValue(key + [0], v, false);
    if e.Some? {
      assert e.value + [] == e.value;
    }
  }

  // ---- the round trip -------------------------------------------------------------------

  ghost predicate ReadsBack(v: Value) { Meaning(TreeOf(v)) == Some(ReadBack(v)) }

  lemma {:induction false} LeafReadsBack(name: Bytes, v: Value, checkKeys: bool)
    requires !v.Mapping? && !v.List? && !v.CodeWithScope? && !v.DBRef?
    requires EncodeValue(name, v, checkKeys).Some?
    ensures ReadsBack(v)
  {
    hide FlagLetters, FlagsOfLetters, StoredFlags;
    if v.Regex? {
      FlagsRoundTrip(v.flags);
    }
  }

  /** The heart of the round trip, for values of any depth: it holds if and only if `Plain`. */
  lemma {:induction false} ReadsBackIffPlain(name: Bytes, v: Value, checkKeys: bool)
    requires WellTyped(v) && EncodeValue(name, v, checkKeys).Some?
    decreases v, 2
    ensures ReadsBack(v) <==> Plain(v)
  {
    match v
    case Mapping(fs) => MappingReadsBack(fs, checkKeys);
    case List(items) => ListReadsBack(items, checkKeys);
    case CodeWithScope(code, scope) => ScopeReadsBack(code, scope);
    case DBRef(_, _, _, _) => RefReadsBack(v, checkKeys);
    case _ => LeafReadsBack(name, v, checkKeys);
  }

  lemma {:induction false} MappingReadsBack(fs: Fields, checkKeys: bool)
    requires WellTypedAll(fs) && EncodeFields(fs, checkKeys).Some?
    decreases fs, 1
    ensures ReadsBack(Mapping(fs)) <==> Plain(Mapping(fs))
  {
    hide LooksLikeDBRef, Remove, Get, HasKey, WellTypedAll, EncodeFields;
    FieldsReadBack(fs, checkKeys);
    DistinctMeaning(fs);
    ReadBackKeepsDBRefShape(fs);
  }

  lemma {:induction false} DistinctMeaning(fs: Fields)
    requires WellTypedAll(fs)
    ensures Fold(TreesOf(fs), []) == Meanings(fs)
  {
    hide Fold, Meanings, TreesOf, WellTyped;
    assert [] + fs == fs;
    FoldAppends(fs, []);
    if Meanings(fs).Some? {
      assert [] + Meanings(fs).value == Meanings(fs).value;
    }
  }

  lemma {:induction false} ScopeReadsBack(code: Bytes, scope: Fields)
    requires WellTypedAll(scope) && EncodeFields(scope, false).Some?
    decreases scope, 1
    ensures ReadsBack(CodeWithScope(code, scope)) <==> Plain(CodeWithScope(code, scope))
  {
    hide LooksLikeDBRef, Remove, Get, HasKey, WellTypedAll, EncodeFields;
    FieldsReadBack(scope, false);
    DistinctMeaning(scope);
    ReadBackKeepsDBRefShape(scope);
  }

  lemma {:induction false} FieldsReadBack(fs: Fields, checkKeys: bool)
    requires WellTypedAll(fs) && EncodeFields(fs, checkKeys).Some?
    decreases fs, 0
    ensures Meanings(fs) == Some(ReadBackAll(fs)) <==> PlainAll(fs)
  {
    hide Meaning, TreeOf, ReadBack, Plain, WellTyped, EncodeValue;
    if fs != [] {
      var name := CString(fs[0].key).value;
      ReadsBackIffPlain(name, fs[0].value, checkKeys);
      FieldsReadBack(fs[1..], checkKeys);
      var ms, rb := Meanings(fs), ReadBackAll(fs);
      if ms.Some? {
        assert ms.value[1..] == Meanings(fs[1..]).value;
        assert rb[1..] == ReadBackAll(fs[1..]);
        assert ms.value[0].value == Meaning(TreeOf(fs[0].value)).value;
        assert ms.value == [ms.value[0]] + ms.value[1..];
      }
    }
  }

  lemma {:induction false} ListReadsBack(items: seq<Value>, checkKeys: bool)
    requires WellTypedItems(items) && EncodeItems(items, 0, checkKeys).Some?
    decreases items, 1
    ensures ReadsBack(List(items)) <==> Plain(List(items))
  {
    hide ItemMeanings, WellTypedItems, EncodeItems;
    ItemsReadBack(items, 0, checkKeys);
    ItemsAppend(items, 0, []);
    if ItemMeanings(items).Some? {
      assert [] + ItemMeanings(items).value == ItemMeanings(items).value;
    }
  }

  lemma {:induction false} ItemsReadBack(items: seq<Value>, i: nat, checkKeys: bool)
    requires WellTypedItems(items) && EncodeItems(items, i, checkKeys).Some?
    decreases items, 0
    ensures ItemMeanings(items) == Some(ReadBackItems(items)) <==> PlainItems(items)
  {
    hide Meaning, TreeOf, ReadBack, Plain, WellTyped, EncodeValue, Digits;
    if items != [] {
      ReadsBackIffPlain(Digits(i) + [0], items[0], checkKeys);
      ItemsReadBack(items[1..], i + 1, checkKeys);
      var ms, rb := ItemMeanings(items), ReadBackItems(items);
      if ms.Some? {
        assert ms.value[1..] == ItemMeanings(items[1..]).value;
        assert rb[1..] == ReadBackItems(items[1..]);
        assert ms.value[0] == Meaning(TreeOf(items[0])).value;
        assert ms.value == [ms.value[0]] + ms.value[1..];
      }
    }
  }

  lemma {:induction false} RefReadsBack(v: Value, checkKeys: bool)
    requires v.DBRef? && WellTyped(v) && EncodeRefElements(v, checkKeys).Some?
    decreases v, 1
    ensures ReadsBack(v) <==> Plain(v)
  {
    hide EncodeValue;
    if NoReserved(v.extra) {
      RefPartsReadBack(v, checkKeys);
      RefMeaning(v);
      hide Meaning, TreeOf, Meanings, PlainAll, ReadBackAll, NoReserved;
    } else {
      var k :| 0 <= k < |v.extra| && Reserved(v.extra[k].key);
      ClashingExtraIsLost(v, k);
    }
  }

  lemma {:induction false} RefPartsReadBack(v: Value, checkKeys: bool)
    requires v.DBRef? && WellTyped(v) && EncodeRefElements(v, checkKeys).Some?
    decreases v, 0
    ensures ReadsBack(v.collection) <==> Plain(v.collection)
    ensures ReadsBack(v.id) <==> Plain(v.id)
    ensures ReadsBack(v.database) <==> Plain(v.database)
    ensures Meanings(v.extra) == Some(ReadBackAll(v.extra)) <==> PlainAll(v.extra)
  {
    hide EncodeValue, Meaning, TreeOf, ReadBack, Plain;
    ReadsBackIffPlain(REF_KEY + [0], v.collection, checkKeys);
    ReadsBackIffPlain(DOLLAR_ID_KEY + [0], v.id, checkKeys);
    if v.database.Null? {
      NullReadsBack();
    } else {
      ReadsBackIffPlain(DB_KEY + [0], v.database, checkKeys);
    }
    FieldsReadBack(v.extra, checkKeys);
  }

  lemma {:induction false} NullReadsBack()
    ensures ReadsBack(Null) && Plain(Null)
  {
  }

  /** An extra field named `$ref`, `$id` or `$db` never survives: the decoder pops those keys. */
  lemma {:induction false} ClashingExtraIsLost(v: Value, k: nat)
    requires v.DBRef? && k < |v.extra| && Reserved(v.extra[k].key)
    ensures !ReadsBack(v)
  {
    hide Fold, RefTrees, Get;
    var m := Fold(RefTrees(v), []);
    if m.Some? && LooksLikeDBRef(m.value) {
      var key := v.extra[k].key;
      var extra := ReadBackAll(v.extra);
      HasAt(extra, k);
      var kept := Remove(Remove(Remove(m.value, REF_KEY), DOLLAR_ID_KEY), DB_KEY);
      RemoveKeepsAbsent(Remove(m.value, REF_KEY), DOLLAR_ID_KEY, REF_KEY);
      RemoveKeepsAbsent(Remove(Remove(m.value, REF_KEY), DOLLAR_ID_KEY), DB_KEY, REF_KEY);
      RemoveKeepsAbsent(Remove(Remove(m.value, REF_KEY), DOLLAR_ID_KEY), DB_KEY, DOLLAR_ID_KEY);
      assert HasKey(extra, key) && !HasKey(kept, key);
    }
  }

  lemma {:induction false} RemoveKeepsAbsent(fs: Fields, key: Bytes, other: Bytes)
    requires !HasKey(fs, other)
    ensures !HasKey(Remove(fs, key), other)
  {
    if fs != [] {
      HasAt(fs, 0);
      assert !HasKey(fs[1..], other) by {
        assert forall i :: 0 <= i < |fs[1..]| ==> fs[1..][i] == fs[i + 1];
      }
      RemoveKeepsAbsent(fs[1..], key, other);
    }
  }

  // ---- whole documents ------------------------------------------------------------------

  /** Decoding an encoded document returns the meaning of its fields, whatever they are. */
  lemma {:induction false} DecodeEncoded(fs: Fields, checkKeys: bool)
    requires Distinct(fs) && EncodeNested(fs, checkKeys).Some?
    ensures Decoder.BsonToDict(EncodeNested(fs, checkKeys).value) == Meanings(fs)
  {
    hide Decoder.BsonToDict, Meanings, Container, Yield, ValidUtf8;
    FieldsAreDerivation(fs, checkKeys);
    EncloseIsContainer(Yield(TreesOf(fs)));
    Parsing.DerivableIsDecoded(TreesOf(fs), EncodeNested(fs, checkKeys).value);
    assert [] + fs == fs;
    FoldAppends(fs, []);
    if Meanings(fs).Some? {
      assert [] + Meanings(fs).value == Meanings(fs).value;
    }
  }

  /** The BSON round trip: every encodable document of any depth decodes to itself with `_id` moved
      first, up to `ReadBack`, exactly when no part of it is mistaken for a DBRef. */
  lemma {:induction false} DocumentRoundTrip(fs: Fields, checkKeys: bool)
    requires WellTypedAll(fs) && EncodeDocument(fs, checkKeys).Some?
    ensures Decoder.BsonToDict(EncodeDocument(fs, checkKeys).value) == Some(ReadBackAll(IdFirst(fs)))
            <==> PlainAll(fs)
  {
    hide Decoder.BsonToDict, Meanings, WellTyped, PlainAll, EncodeFields, ReadBackAll;
    EncodeDocumentIsIdFirst(fs, checkKeys);
    IdFirstPermutes(fs);
    PlainMembers(fs);
    PlainMembers(IdFirst(fs));
    DecodeEncoded(IdFirst(fs), checkKeys);
    FieldsReadBack(IdFirst(fs), checkKeys);
    assert forall f :: f in fs <==> f in multiset(fs);
    assert forall f :: f in IdFirst(fs) <==> f in multiset(IdFirst(fs));
  }

  lemma {:induction false} PlainMembers(fs: Fields)
    ensures PlainAll(fs) <==> forall f :: f in fs ==> Plain(f.value)
  {
    hide Plain;
    if fs != [] {
      PlainMembers(fs[1..]);
      assert fs == [fs[0]] + fs[1..];
    }
  }

  lemma {:induction false} RemoveOne(fs: Fields, key: Bytes)
    requires Distinct(fs) && HasKey(fs, key)
    ensures multiset([Field(key, Get(fs, key))] + Remove(fs, key)) == multiset(fs)
  {
    assert fs == [fs[0]] + fs[1..];
    var rest := fs[1..];
    assert forall i :: 0 <= i < |rest| ==> rest[i] == fs[i + 1];
    if fs[0].key == key {
      assert !HasKey(rest, key);
      RemoveAbsent(rest, key);
    } else {
      assert HasKey(rest, key) by {
        var i :| 0 <= i < |fs| && fs[i].key == key;
        assert rest[i - 1] == fs[i];
      }
      RemoveOne(rest, key);
    }
  }

  lemma {:induction false} RemoveDistinct(fs: Fields, key: Bytes)
    requires Distinct(fs)
    ensures Distinct(Remove(fs, key))
    ensures forall f :: f in Remove(fs, key) ==> f in fs
  {
    if fs != [] {
      var rest := fs[1..];
      assert fs == [fs[0]] + rest;
      assert Distinct(rest);
      RemoveDistinct(rest, key);
      var kept := Remove(rest, key);
      assert forall j :: 0 <= j < |kept| ==> kept[j] in rest;
      assert forall i :: 0 <= i < |rest| ==> rest[i].key != fs[0].key;
    }
  }

  /** Moving `_id` first permutes the fields: nothing is lost, added or duplicated. */
  lemma {:induction false} IdFirstPermutes(fs: Fields)
    requires WellTypedAll(fs)
    ensures multiset(IdFirst(fs)) == multiset(fs)
    ensures WellTypedAll(IdFirst(fs))
  {
    hide WellTyped, Remove, Get;
    if HasKey(fs, ID_KEY) {
      var r, rest := IdFirst(fs), Remove(fs, ID_KEY);
      RemoveOne(fs, ID_KEY);
      RemoveDistinct(fs, ID_KEY);
      assert forall i :: 0 < i < |r| ==> r[i] == rest[i - 1];
      assert Distinct(r);
      forall i | 0 <= i < |r|
        ensures WellTyped(r[i].value)
      {
        assert r[i] in multiset(r);
        assert r[i] in fs;
      }
    }
  }
}
