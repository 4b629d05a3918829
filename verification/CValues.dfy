/**
 What the C encoder of bson/_cbsonmodule.c makes of a value, compared with the Python encoder.
 It writes a DBRef as its `as_doc()`, where an extra field replaces a part with the same key; it
 stores a Binary subtype in a signed char and takes -1 for an error; and it converts the flags of a
 regular expression to a C long.  `AsC` is the value whose Python encoding is what C writes.
 */
module CValues {
  import opened Bytes
  import opened Bson
  import opened Encoder
  import opened ReadBack
  import RoundTrip

  /** LONG_MAX where a long has 64 bits. */
  const MAX_LONG: nat := MAX_INT64

  /** A value that no encoder accepts: an int beyond 64 bits. */
  const REFUSED: Value := Int(TWO_64)

  /** `(char)n` for a signed char. */
  function SignedChar(n: int): (c: int)
    ensures -128 <= c < 128 && (c - n) % 256 == 0
  {
    (n + 128) % 256 - 128
  }

  /** Leaves on which the C encoder fails although the Python encoder does not. */
  predicate RefusedByC(v: Value)
  {
    || (v.Binary? && SignedChar(v.subtype) == -1)
    || (v.Regex? && v.flags > MAX_LONG)
  }

  /** Subtype 255, and flags from 2^63 on. */
  lemma {:induction false} RefusedExactly(v: Value)
    ensures RefusedByC(v) <==>
            (v.Binary? && v.subtype == 255) || (v.Regex? && v.flags >= 9_223_372_036_854_775_808)
  {
  }

  // ---- the value C writes ---------------------------------------------------------------

  function AsC(v: Value): (r: Value)
    decreases Size(v), 1
  {
    if RefusedByC(v) then REFUSED
    else
      match v
      case Mapping(fs) => Mapping(AsCAll(fs))
      case List(items) => List(AsCItems(items))
      case CodeWithScope(code, scope) => CodeWithScope(code, AsCAll(scope))
      case DBRef(_, _, _, _) => SizeAsDoc(v); Mapping(AsCAll(AsDoc(v)))
      case _ => v
  }

  function AsCAll(fs: Fields): (r: Fields)
    decreases SizeAll(fs), 0
    ensures |r| == |fs| && forall i :: 0 <= i < |fs| ==> r[i].key == fs[i].key
  {
    if fs == [] then [] else [Field(fs[0].key, AsC(fs[0].value))] + AsCAll(fs[1..])
  }

  function AsCItems(items: seq<Value>): (r: seq<Value>)
    decreases SizeItems(items), 0
    ensures |r| == |items|
  {
    if items == [] then [] else [AsC(items[0])] + AsCItems(items[1..])
  }

  // ---- when the two encoders agree ------------------------------------------------------

  /** No DBRef has an extra field with the key of one of its parts, no Binary has subtype 255 and no
      flags exceed a C long. */
  predicate SameInC(v: Value)
    decreases v, 1
  {
    && !RefusedByC(v)
    && match v
       case Mapping(fs) => SameInCAll(fs)
       case List(items) => SameInCItems(items)
       case CodeWithScope(_, scope) => SameInCAll(scope)
       case DBRef(c, id, db, extra) => NoClash(v) && SameInC(c) && SameInC(id) && SameInC(db) && SameInCAll(extra)
       case _ => true
  }

  predicate SameInCAll(fs: Fields)
    decreases fs, 0
  {
    fs != [] ==> SameInC(fs[0].value) && SameInCAll(fs[1..])
  }

  predicate SameInCItems(items: seq<Value>)
    decreases items, 0
  {
    items != [] ==> SameInC(items[0]) && SameInCItems(items[1..])
  }

  lemma {:induction false} SameInCAppend(a: Fields, b: Fields)
    ensures SameInCAll(a + b) <==> SameInCAll(a) && SameInCAll(b)
  {
    hide SameInC;
    if a == [] {
      assert a + b == b;
    } else {
      SameInCAppend(a[1..], b);
      assert (a + b)[1..] == a[1..] + b && (a + b)[0] == a[0];
    }
  }

  lemma {:induction false} SameInCRef(v: Value)
    requires v.DBRef?
    ensures SameInCAll(RefFields(v)) <==>
            SameInC(v.collection) && SameInC(v.id) && SameInC(v.database) && SameInCAll(v.extra)
  {
    var ref, rid := Field(REF_KEY, v.collection), Field(DOLLAR_ID_KEY, v.id);
    var db := if v.database.Null? then [] else [Field(DB_KEY, v.database)];
    SameInCAppend([ref, rid] + db, v.extra);
    SameInCAppend([ref, rid], db);
    assert [ref, rid] == [ref] + [rid];
    SameInCAppend([ref], [rid]);
    SameInCOne(ref);
    SameInCOne(rid);
    SameInCOne(Field(DB_KEY, v.database));
  }

  lemma {:induction false} SameInCOne(f: Field)
    ensures SameInCAll([f]) <==> SameInC(f.value)
  {
    assert [f][1..] == [];
    assert SameInCAll([f][1..]);
  }

  /** What `WellTyped` says about the fields that a DBRef is written as. */
  lemma {:induction false} WellTypedRefFields(v: Value)
    requires v.DBRef? && WellTyped(v)
    ensures Distinct(v.extra) && forall i :: 0 <= i < |RefFields(v)| ==> WellTyped(RefFields(v)[i].value)
  {
    var k := |RefBase(v)|;
    assert forall i :: k <= i < |RefFields(v)| ==> RefFields(v)[i] == v.extra[i - k];
  }

  lemma {:induction false} RefFieldsSize(v: Value)
    requires v.DBRef?
    ensures SizeAll(RefFields(v)) < Size(v)
  {
    SizeAsDoc(v);
  }

  /** Agreement: the same bytes, or failure in both. */
  lemma {:induction false} SameAgrees(name: Bytes, v: Value)
    requires WellTyped(v) && SameInC(v)
    ensures EncodeValue(name, AsC(v), false) == EncodeValue(name, v, false)
    decreases Size(v), 1
  {
    hide EncodeFields, EncodeItems, EncodeRefElements, EncodeText, EncodeRegex, EncodeBinary, PackInt32, PackInt64,
         Tagged,
         Enclose, Concat, Distinct, NoClash, AsDoc, RefFields, Le;
    match v
    case Mapping(fs) => FieldsAgree(fs);
    case List(items) => ItemsAgree(items, 0);
    case CodeWithScope(_, scope) => FieldsAgree(scope);
    case DBRef(_, _, _, _) =>
      SizeAsDoc(v);
      RefFieldsSize(v);
      WellTypedRefFields(v);
      NoClashAppends(v);
      SameInCRef(v);
      FieldsAgree(RefFields(v));
      RefFieldsAreElements(v);
    case _ =>
  }

  lemma {:induction false} FieldsAgree(fs: Fields)
    requires SameInCAll(fs) && forall i :: 0 <= i < |fs| ==> WellTyped(fs[i].value)
    ensures EncodeFields(AsCAll(fs), false) == EncodeFields(fs, false)
    decreases SizeAll(fs), 0
  {
    hide EncodeValue, AsC, SameInC, WellTyped, Size, CString;
    if fs != [] {
      SameAgrees(fs[0].key + [0], fs[0].value);
      FieldsAgree(fs[1..]);
      assert AsCAll(fs)[1..] == AsCAll(fs[1..]);
      CStringIs(fs[0].key);
    }
  }

  lemma {:induction false} CStringIs(key: Bytes)
    ensures CString(key).Some? ==> CString(key).value == key + [0]
  {
  }

  lemma {:induction false} ItemsAgree(items: seq<Value>, i: nat)
    requires SameInCItems(items) && forall k :: 0 <= k < |items| ==> WellTyped(items[k])
    ensures EncodeItems(AsCItems(items), i, false) == EncodeItems(items, i, false)
    decreases SizeItems(items), 0
  {
    hide EncodeValue, AsC, SameInC, WellTyped, Size, Digits;
    if items != [] {
      SameAgrees(Digits(i) + [0], items[0]);
      ItemsAgree(items[1..], i + 1);
      assert AsCItems(items)[1..] == AsCItems(items[1..]);
    }
  }

  // ---- and only then --------------------------------------------------------------------

  /** Putting a field never makes the encoding longer than appending it, and shorter if the key was there. */
  lemma {:induction false} PutLength(fs: Fields, f: Field)
    requires EncodeFields(fs, false).Some? && EncodeElement(f, false).Some?
    ensures EncodeFields(Put(fs, f.key, f.value), false).Some?
    ensures var n := |EncodeFields(Put(fs, f.key, f.value), false).value|;
            var sum := |EncodeFields(fs, false).value| + |EncodeElement(f, false).value|;
            n <= sum && (HasKey(fs, f.key) ==> n < sum)
  {
    hide EncodeElement, HasKey;
    var r := Put(fs, f.key, f.value);
    assert Field(f.key, f.value) == f;
    if fs == [] {
      assert r[1..] == [];
      NoKey(f.key);
    } else if fs[0].key == f.key {
      assert r[1..] == fs[1..] && r[0] == f;
      ElementIsLong(fs[0]);
    } else {
      PutLength(fs[1..], f);
      assert r[1..] == Put(fs[1..], f.key, f.value) && r[0] == fs[0];
      HasKeyTail(fs, f.key);
    }
  }

  lemma {:induction false} NoKey(key: Bytes)
    ensures !HasKey([], key)
  {
  }

  lemma {:induction false} HasKeyTail(fs: Fields, key: Bytes)
    requires fs != [] && fs[0].key != key
    ensures HasKey(fs, key) <==> HasKey(fs[1..], key)
  {
    if HasKey(fs, key) {
      var i :| 0 <= i < |fs| && fs[i].key == key;
      assert fs[1..][i - 1].key == key;
    }
    if HasKey(fs[1..], key) {
      var i :| 0 <= i < |fs[1..]| && fs[1..][i].key == key;
      assert fs[i + 1].key == key;
    }
  }

  lemma {:induction false} ElementIsLong(f: Field)
    requires EncodeElement(f, false).Some?
    ensures |EncodeElement(f, false).value| >= 1
  {
    hide EncodeText, EncodeBinary, EncodeRegex, EncodeFields, EncodeItems, EncodeRefElements, PackInt32, PackInt64,
         Le, CString;
  }

  lemma {:induction false} PutKeepsKeys(fs: Fields, key: Bytes, v: Value, k: Bytes)
    requires HasKey(fs, k)
    ensures HasKey(Put(fs, key, v), k)
  {
    hide HasKey;
    var r := Put(fs, key, v);
    if fs == [] {
      NoKey(k);
    } else if fs[0].key == k {
      HasAt(r, 0);
    } else if fs[0].key == key {
      HasKeyTail(fs, k);
      assert r[1..] == fs[1..];
      if key != k {
        HasKeyTail(r, k);
      }
    } else {
      HasKeyTail(fs, k);
      PutKeepsKeys(fs[1..], key, v, k);
      assert r[1..] == Put(fs[1..], key, v);
      HasKeyTail(r, k);
    }
  }

  /** Some field of `more` has a key of `fs`. */
  ghost predicate Overlaps(fs: Fields, more: Fields)
  {
    exists i :: 0 <= i < |more| && HasKey(fs, more[i].key)
  }

  lemma {:induction false} UpdateLength(fs: Fields, more: Fields)
    requires EncodeFields(fs, false).Some? && EncodeFields(more, false).Some?
    ensures EncodeFields(Update(fs, more), false).Some?
    ensures var n := |EncodeFields(Update(fs, more), false).value|;
            var sum := |EncodeFields(fs, false).value| + |EncodeFields(more, false).value|;
            n <= sum && (Overlaps(fs, more) ==> n < sum)
    decreases |more|
  {
    hide EncodeElement, HasKey, Put;
    if more != [] {
      var next := Put(fs, more[0].key, more[0].value);
      PutLength(fs, more[0]);
      UpdateLength(next, more[1..]);
      if Overlaps(fs, more) && !HasKey(fs, more[0].key) {
        var i :| 0 <= i < |more| && HasKey(fs, more[i].key);
        PutKeepsKeys(fs, more[0].key, more[0].value, more[i].key);
        assert more[1..][i - 1] == more[i];
      }
    }
  }

  lemma {:induction false} ClashOverlaps(v: Value)
    requires v.DBRef? && !NoClash(v)
    ensures Overlaps(RefBase(v), v.extra)
  {
    var base := RefBase(v);
    var key := if HasKey(v.extra, REF_KEY) then REF_KEY
               else if HasKey(v.extra, DOLLAR_ID_KEY) then DOLLAR_ID_KEY else DB_KEY;
    assert base[0].key == REF_KEY && base[1].key == DOLLAR_ID_KEY;
    assert !v.database.Null? ==> base[2].key == DB_KEY;
    var i :| 0 <= i < |v.extra| && v.extra[i].key == key;
    assert HasKey(base, key);
  }

  /** `a` is what C writes where Python writes `b`: never longer, and of the same length only if `same`. */
  ghost predicate Shorter(a: Option<Bytes>, b: Bytes, same: bool)
  {
    a.Some? ==> |a.value| <= |b| && (|a.value| == |b| ==> same)
  }

  lemma {:induction false} ShorterTagged(t: byte, name: Bytes, a: Option<Bytes>, b: Bytes, same: bool)
    requires Shorter(a, b, same)
    ensures Shorter(Tagged(t, name, a), Tagged(t, name, Some(b)).value, same)
  {
  }

  lemma {:induction false} ShorterEnclosed(a: Option<Bytes>, b: Bytes, same: bool)
    requires Shorter(a, b, same) && Enclose(Some(b)).Some?
    ensures Shorter(Enclose(a), Enclose(Some(b)).value, same)
  {
    hide PackInt32;
  }

  lemma {:induction false} ShorterConcat(a1: Option<Bytes>, b1: Bytes, s1: bool, a2: Option<Bytes>, b2: Bytes, s2: bool)
    requires Shorter(a1, b1, s1) && Shorter(a2, b2, s2)
    ensures Shorter(Concat(a1, a2), b1 + b2, s1 && s2)
  {
  }

  /** What C writes is never longer, and as long only if nothing differs. */
  lemma {:induction false} LengthsTell(name: Bytes, v: Value)
    requires WellTyped(v) && EncodeValue(name, v, false).Some?
    ensures Shorter(EncodeValue(name, AsC(v), false), EncodeValue(name, v, false).value, SameInC(v))
    decreases Size(v), 1
  {
    hide EncodeFields, EncodeItems, EncodeRefElements, EncodeText, EncodeRegex, EncodeBinary, PackInt32, PackInt64,
         Tagged,
         Enclose, Concat, Distinct, NoClash, AsDoc, RefFields, Le, Shorter;
    match v
    case Mapping(fs) =>
      NestedIsSome(name, v);
      FieldsTell(fs);
      ShorterNested(0x03, name, EncodeFields(AsCAll(fs), false), EncodeFields(fs, false).value, SameInCAll(fs));
    case List(items) =>
      NestedIsSome(name, v);
      ItemsTell(items, 0);
      ShorterNested(0x04, name, EncodeItems(AsCItems(items), 0, false), EncodeItems(items, 0, false).value,
                    SameInCItems(items));
    case CodeWithScope(code, scope) =>
      NestedIsSome(name, v);
      FieldsTell(scope);
      ScopeTells(name, code, scope);
    case DBRef(_, _, _, _) =>
      NestedIsSome(name, v);
      RefPartsTell(v);
      SizeAsDoc(v);
      FieldsTell(AsDoc(v));
      RefTells(v);
      ShorterNested(0x03, name, EncodeFields(AsCAll(AsDoc(v)), false), EncodeRefElements(v, false).value, SameInC(v));
    case _ => LeafTells(name, v);
  }

  /** An encoded container has encoded contents. */
  lemma {:induction false} NestedIsSome(name: Bytes, v: Value)
    requires EncodeValue(name, v, false).Some?
    ensures v.Mapping? ==> EncodeFields(v.fields, false).Some? && Enclose(EncodeFields(v.fields, false)).Some?
    ensures v.List? ==> EncodeItems(v.items, 0, false).Some? && Enclose(EncodeItems(v.items, 0, false)).Some?
    ensures v.CodeWithScope? ==> EncodeFields(v.scope, false).Some? && Enclose(EncodeFields(v.scope, false)).Some?
    ensures v.DBRef? ==> EncodeRefElements(v, false).Some? && Enclose(EncodeRefElements(v, false)).Some?
  {
    hide EncodeFields, EncodeItems, EncodeRefElements, EncodeText, PackInt32;
  }

  lemma {:induction false} ShorterNested(t: byte, name: Bytes, a: Option<Bytes>, b: Bytes, same: bool)
    requires Shorter(a, b, same) && Enclose(Some(b)).Some?
    ensures Shorter(Tagged(t, name, Enclose(a)), Tagged(t, name, Enclose(Some(b))).value, same)
  {
    hide Shorter, Tagged, Enclose;
    ShorterEnclosed(a, b, same);
    ShorterTagged(t, name, Enclose(a), Enclose(Some(b)).value, same);
  }

  lemma {:induction false} ScopeTells(name: Bytes, code: Bytes, scope: Fields)
    requires var v := CodeWithScope(code, scope); EncodeValue(name, v, false).Some?
    requires EncodeFields(scope, false).Some? && Enclose(EncodeFields(scope, false)).Some?
    requires Shorter(EncodeFields(AsCAll(scope), false), EncodeFields(scope, false).value, SameInCAll(scope))
    ensures var v := CodeWithScope(code, scope);
            Shorter(EncodeValue(name, AsC(v), false), EncodeValue(name, v, false).value, SameInC(v))
  {
    hide EncodeFields, EncodeText, PackInt32, AsCAll, SameInCAll, Enclose;
    ShorterEnclosed(EncodeFields(AsCAll(scope), false), EncodeFields(scope, false).value, SameInCAll(scope));
  }

  lemma {:induction false} FieldsTell(fs: Fields)
    requires EncodeFields(fs, false).Some? && forall i :: 0 <= i < |fs| ==> WellTyped(fs[i].value)
    ensures Shorter(EncodeFields(AsCAll(fs), false), EncodeFields(fs, false).value, SameInCAll(fs))
    decreases SizeAll(fs), 0
  {
    hide EncodeValue, AsC, SameInC, WellTyped, Size, CString;
    if fs != [] {
      CStringIs(fs[0].key);
      LengthsTell(fs[0].key + [0], fs[0].value);
      FieldsTell(fs[1..]);
      assert AsCAll(fs)[1..] == AsCAll(fs[1..]);
      ShorterConcat(EncodeElement(AsCAll(fs)[0], false), EncodeElement(fs[0], false).value, SameInC(fs[0].value),
                    EncodeFields(AsCAll(fs[1..]), false), EncodeFields(fs[1..], false).value, SameInCAll(fs[1..]));
    }
  }

  lemma {:induction false} ItemsTell(items: seq<Value>, i: nat)
    requires EncodeItems(items, i, false).Some? && forall k :: 0 <= k < |items| ==> WellTyped(items[k])
    ensures Shorter(EncodeItems(AsCItems(items), i, false), EncodeItems(items, i, false).value, SameInCItems(items))
    decreases SizeItems(items), 0
  {
    hide EncodeValue, AsC, SameInC, WellTyped, Size, Digits;
    if items != [] {
      var name := Digits(i) + [0];
      LengthsTell(name, items[0]);
      ItemsTell(items[1..], i + 1);
      assert AsCItems(items)[1..] == AsCItems(items[1..]);
      ShorterConcat(EncodeValue(name, AsC(items[0]), false), EncodeValue(name, items[0], false).value,
                    SameInC(items[0]),
                    EncodeItems(AsCItems(items[1..]), i + 1, false), EncodeItems(items[1..], i + 1, false).value,
                    SameInCItems(items[1..]));
    }
  }

  lemma {:induction false} PutMembers(fs: Fields, key: Bytes, v: Value)
    requires WellTyped(v) && forall i :: 0 <= i < |fs| ==> WellTyped(fs[i].value)
    ensures forall i :: 0 <= i < |Put(fs, key, v)| ==> WellTyped(Put(fs, key, v)[i].value)
  {
    hide WellTyped;
    if fs != [] && fs[0].key != key {
      PutMembers(fs[1..], key, v);
    }
  }

  lemma {:induction false} UpdateMembers(fs: Fields, more: Fields)
    requires forall i :: 0 <= i < |fs| ==> WellTyped(fs[i].value)
    requires forall i :: 0 <= i < |more| ==> WellTyped(more[i].value)
    ensures forall i :: 0 <= i < |Update(fs, more)| ==> WellTyped(Update(fs, more)[i].value)
    decreases |more|
  {
    hide WellTyped, Put;
    if more != [] {
      PutMembers(fs, more[0].key, more[0].value);
      UpdateMembers(Put(fs, more[0].key, more[0].value), more[1..]);
    }
  }

  /** `as_doc()` of a DBRef that Python encodes: encodable, no longer, and shorter after a clash. */
  lemma {:induction false} RefPartsTell(v: Value)
    requires v.DBRef? && WellTyped(v) && EncodeRefElements(v, false).Some?
    ensures forall i :: 0 <= i < |AsDoc(v)| ==> WellTyped(AsDoc(v)[i].value)
    ensures EncodeFields(AsDoc(v), false).Some?
    ensures var n, all := |EncodeFields(AsDoc(v), false).value|, |EncodeRefElements(v, false).value|;
            n <= all && (n == all ==> NoClash(v))
  {
    hide EncodeRefElements, EncodeFields, Update, NoClash;
    WellTypedRefFields(v);
    UpdateMembers(RefBase(v), v.extra);
    RefFieldsAreElements(v);
    assert RefFields(v) == RefBase(v) + v.extra;
    EncodeFieldsAppend(RefBase(v), v.extra, false);
    UpdateLength(RefBase(v), v.extra);
    if !NoClash(v) {
      ClashOverlaps(v);
    }
  }

  lemma {:induction false} RefTells(v: Value)
    requires v.DBRef? && WellTyped(v) && EncodeRefElements(v, false).Some? && EncodeFields(AsDoc(v), false).Some?
    requires var n, all := |EncodeFields(AsDoc(v), false).value|, |EncodeRefElements(v, false).value|;
             n <= all && (n == all ==> NoClash(v))
    requires Shorter(EncodeFields(AsCAll(AsDoc(v)), false), EncodeFields(AsDoc(v), false).value, SameInCAll(AsDoc(v)))
    ensures Shorter(EncodeFields(AsCAll(AsDoc(v)), false), EncodeRefElements(v, false).value, SameInC(v))
  {
    hide EncodeRefElements, EncodeFields, NoClash, AsDoc, RefFields, SameInCAll, Distinct;
    WellTypedRefFields(v);
    if NoClash(v) {
      NoClashAppends(v);
      SameInCRef(v);
    }
  }

  /** The C encoder writes the Python encoder's bytes if and only if no DBRef has an extra field with
      the key of a part, no Binary has subtype 255 and no flags exceed a C long. */
  lemma {:induction false} SameBytesIff(name: Bytes, v: Value)
    requires WellTyped(v) && EncodeValue(name, v, false).Some?
    ensures EncodeValue(name, AsC(v), false) == EncodeValue(name, v, false) <==> SameInC(v)
  {
    hide EncodeValue, AsC, SameInC, WellTyped;
    LengthsTell(name, v);
    if SameInC(v) {
      SameAgrees(name, v);
    }
  }

  /** The same for the fields of a document. */
  lemma {:induction false} SameFieldsIff(fs: Fields)
    requires EncodeFields(fs, false).Some? && forall i :: 0 <= i < |fs| ==> WellTyped(fs[i].value)
    ensures EncodeFields(AsCAll(fs), false) == EncodeFields(fs, false) <==> SameInCAll(fs)
  {
    hide EncodeFields, AsCAll, SameInCAll, WellTyped;
    FieldsTell(fs);
    if SameInCAll(fs) {
      FieldsAgree(fs);
    }
  }

  lemma {:induction false} LeafTells(name: Bytes, v: Value)
    requires IsLeaf(v) && EncodeValue(name, v, false).Some?
    ensures Shorter(EncodeValue(name, AsC(v), false), EncodeValue(name, v, false).value, SameInC(v))
  {
    hide EncodeText, EncodeRegex, EncodeBinary, PackInt32, PackInt64, Tagged, Le;
  }

  // ---- documents ------------------------------------------------------------------------

  lemma {:induction false} AsCGet(fs: Fields, key: Bytes)
    ensures Get(AsCAll(fs), key) == AsC(Get(fs, key)) && (HasKey(AsCAll(fs), key) <==> HasKey(fs, key))
  {
    hide AsC;
    var r := AsCAll(fs);
    assert HasKey(r, key) <==> HasKey(fs, key) by {
      if HasKey(fs, key) {
        var i :| 0 <= i < |fs| && fs[i].key == key;
        assert r[i].key == key;
      }
    }
    if fs == [] {
      NullAsC();
    } else {
      AsCGet(fs[1..], key);
      assert r[1..] == AsCAll(fs[1..]);
    }
  }

  lemma {:induction false} NullAsC()
    ensures AsC(Null) == Null
  {
  }

  lemma {:induction false} AsCRemove(fs: Fields, key: Bytes)
    ensures AsCAll(Remove(fs, key)) == Remove(AsCAll(fs), key)
    decreases |fs|
  {
    hide AsC;
    if fs != [] {
      AsCRemove(fs[1..], key);
      assert AsCAll(fs)[1..] == AsCAll(fs[1..]);
      if fs[0].key != key {
        assert ([fs[0]] + Remove(fs[1..], key))[1..] == Remove(fs[1..], key);
      }
    }
  }

  lemma {:induction false} AsCIdFirst(fs: Fields)
    ensures AsCAll(IdFirst(fs)) == IdFirst(AsCAll(fs))
  {
    hide AsC, HasKey, Get;
    AsCGet(fs, ID_KEY);
    AsCRemove(fs, ID_KEY);
    if HasKey(fs, ID_KEY) {
      assert IdFirst(fs)[1..] == Remove(fs, ID_KEY);
    }
  }

  lemma {:induction false} SameInCMembers(fs: Fields)
    ensures SameInCAll(fs) <==> forall f | f in fs :: SameInC(f.value)
  {
    hide SameInC;
    if fs != [] {
      SameInCMembers(fs[1..]);
      assert fs == [fs[0]] + fs[1..];
    }
  }

  lemma {:induction false} IdFirstIsTyped(fs: Fields)
    requires WellTypedAll(fs)
    ensures forall i :: 0 <= i < |IdFirst(fs)| ==> WellTyped(IdFirst(fs)[i].value)
    ensures SameInCAll(IdFirst(fs)) <==> SameInCAll(fs)
  {
    hide WellTyped, SameInC, SameInCAll, IdFirst;
    IdFirstPermutes(fs);
    assert forall f :: f in fs <==> f in multiset(fs);
    assert forall f :: f in IdFirst(fs) <==> f in multiset(IdFirst(fs));
    SameInCMembers(fs);
    SameInCMembers(IdFirst(fs));
    forall i | 0 <= i < |IdFirst(fs)| ensures WellTyped(IdFirst(fs)[i].value) {
      assert IdFirst(fs)[i] in fs;
    }
  }

  lemma {:induction false} EnclosedDiffers(a: Option<Bytes>, b: Bytes)
    requires Enclose(Some(b)).Some?
    ensures Enclose(a) == Enclose(Some(b)) <==> a == Some(b)
  {
    hide PackInt32;
    if Enclose(a) == Enclose(Some(b)) {
      var s := Enclose(a).value;
      assert a.value == s[4..|s| - 1] == b;
    }
  }

  /** Whole documents: the same bytes or failure in both whenever nothing differs, and for a document
      that Python encodes the same bytes only then. */
  lemma {:induction false} SameDocumentIff(fs: Fields)
    requires WellTypedAll(fs)
    ensures SameInCAll(fs) ==> EncodeDocument(AsCAll(fs), false) == EncodeDocument(fs, false)
    ensures EncodeDocument(fs, false).Some? ==>
              (EncodeDocument(AsCAll(fs), false) == EncodeDocument(fs, false) <==> SameInCAll(fs))
    ensures SameInCAll(fs) ==> EncodeNested(AsCAll(fs), false) == EncodeNested(fs, false)
    ensures EncodeNested(fs, false).Some? ==>
              (EncodeNested(AsCAll(fs), false) == EncodeNested(fs, false) <==> SameInCAll(fs))
  {
    hide EncodeDocument, EncodeFields, AsCAll, SameInCAll, IdFirst, Enclose, Distinct;
    EncodeDocumentIsIdFirst(fs, false);
    EncodeDocumentIsIdFirst(AsCAll(fs), false);
    AsCIdFirst(fs);
    IdFirstIsTyped(fs);
    NestedIff(fs);
    NestedIff(IdFirst(fs));
  }

  lemma {:induction false} NestedIff(fs: Fields)
    requires forall i :: 0 <= i < |fs| ==> WellTyped(fs[i].value)
    ensures SameInCAll(fs) ==> EncodeNested(AsCAll(fs), false) == EncodeNested(fs, false)
    ensures EncodeNested(fs, false).Some? ==>
              (EncodeNested(AsCAll(fs), false) == EncodeNested(fs, false) <==> SameInCAll(fs))
  {
    hide EncodeFields, AsCAll, SameInCAll, WellTyped, PackInt32;
    if SameInCAll(fs) {
      FieldsAgree(fs);
    }
    if EncodeNested(fs, false).Some? {
      SameFieldsIff(fs);
      EnclosedDiffers(EncodeFields(AsCAll(fs), false), EncodeFields(fs, false).value);
    }
  }

  // ---- one input of each kind -----------------------------------------------------------

  /** `DBRef("c", 1, **{"$id": 2})`: Python writes `$id` twice, C once. */
  lemma {:induction false} ClashIsWrittenOnce(name: Bytes)
    ensures var v := DBRef(Text([0x63]), Int(1), Null, [Field(DOLLAR_ID_KEY, Int(2))]);
            && |RefFields(v)| == 3 && |AsDoc(v)| == 2
            && EncodeValue(name, v, false).Some? && EncodeValue(name, AsC(v), false) != EncodeValue(name, v, false)
  {
    var extra := Field(DOLLAR_ID_KEY, Int(2));
    var v := DBRef(Text([0x63]), Int(1), Null, [extra]);
    ClashEncodes(v, name);
    assert WellTypedAll(v.extra) && WellTyped(Int(2));
    assert WellTyped(v.collection) && WellTyped(v.id) && WellTyped(v.database);
    assert WellTyped(v);
    assert HasKey(v.extra, DOLLAR_ID_KEY) by {
      HasAt(v.extra, 0);
    }
    SameBytesIff(name, v);
    assert [extra][1..] == [];
    var base := RefBase(v);
    assert base[0].key == REF_KEY && base[1..][0].key == DOLLAR_ID_KEY && |base[1..]| == 1;
    assert Put(base[1..], DOLLAR_ID_KEY, Int(2)) == [extra] + base[1..][1..];
    assert Update(base, [extra]) == Put(base, DOLLAR_ID_KEY, Int(2));
  }

  lemma {:induction false} ClashEncodes(v: Value, name: Bytes)
    requires v == DBRef(Text([0x63]), Int(1), Null, [Field(DOLLAR_ID_KEY, Int(2))])
    ensures EncodeValue(name, v, false).Some?
  {
    hide PackInt32, ValidUtf8;
    AsciiIsUtf8([0x63]);
    RoundTrip.RefKeysAreText();
    RefElement(DOLLAR_ID_KEY, Int(2));
    assert |EncodeFields(v.extra, false).value| == 9;
    assert |EncodeValue(REF_KEY + [0], v.collection, false).value| == 12;
    assert |EncodeValue(DOLLAR_ID_KEY + [0], v.id, false).value| == 9;
  }

  /** A Binary of subtype 255 is taken for an error. */
  lemma {:induction false} LastSubtypeIsRefused(name: Bytes, data: Bytes)
    requires |data| <= MAX_INT32
    ensures var v := Binary(data, 255);
            EncodeValue(name, v, false).Some? && EncodeValue(name, AsC(v), false).None?
  {
    hide PackInt32;
  }

  /** Flags from 2^63 on do not fit a C long. */
  lemma {:induction false} LongFlagsAreRefused(name: Bytes)
    ensures var v := Regex([0x61], MAX_LONG + 1);
            EncodeValue(name, v, false).Some? && EncodeValue(name, AsC(v), false).None?
  {
    hide ValidUtf8, FlagLetters;
    AsciiIsUtf8([0x61]);
  }
}
