/**
 What the dictionaries of the codec hold, told by position: which element of a document a decoded key
 gets its value from, in which order the keys stand, and which field the encoder writes first.
 */
module Dictionaries {
  import opened Bytes
  import opened Bson
  import opened Grammar

  ghost predicate FirstAt(fs: Fields, i: int, key: Bytes)
  {
    0 <= i < |fs| && fs[i].key == key && forall k :: 0 <= k < i ==> fs[k].key != key
  }

  /** Assignment replaces the value where the key stands, or appends the key. */
  lemma {:induction false} PutTells(fs: Fields, key: Bytes, v: Value)
    ensures forall i :: FirstAt(fs, i, key) ==> Put(fs, key, v) == fs[i := Field(key, v)]
    ensures (forall i :: 0 <= i < |fs| ==> fs[i].key != key) ==> Put(fs, key, v) == fs + [Field(key, v)]
  {
    if fs != [] && fs[0].key != key {
      PutTells(fs[1..], key, v);
      forall i | FirstAt(fs, i, key) ensures Put(fs, key, v) == fs[i := Field(key, v)] {
        assert FirstAt(fs[1..], i - 1, key);
      }
      assert fs == [fs[0]] + fs[1..];
    }
  }

  /** The names in the order of their first use. */
  ghost function FirstNames(es: Elements): (r: seq<Bytes>)
  {
    if es == [] then []
    else
      var names, last := FirstNames(es[..|es| - 1]), es[|es| - 1].name;
      if last in names then names else names + [last]
  }

  ghost function Keys(fs: Fields): (r: seq<Bytes>)
  {
    seq(|fs|, i requires 0 <= i < |fs| => fs[i].key)
  }

  ghost predicate LastAt(es: Elements, i: int, name: Bytes)
  {
    0 <= i < |es| && es[i].name == name && forall k :: i < k < |es| ==> es[k].name != name
  }

  /** Each key has the value of the last element of that name. */
  ghost predicate LastValues(es: Elements, fs: Fields)
  {
    forall i, k :: 0 <= k < |fs| && LastAt(es, i, fs[k].key) ==> Meaning(es[i].node) == Some(fs[k].value)
  }

  lemma {:induction false} FoldSnoc(es: Elements, e: Element, acc: Fields)
    ensures var r, v := Fold(es, acc), Meaning(e.node);
            Fold(es + [e], acc) == if r.None? || v.None? then None else Some(Put(r.value, e.name, v.value))
    decreases es
  {
    hide Meaning, Put;
    if es == [] {
      assert ([e])[1..] == [];
      assert es + [e] == [e];
      var v := Meaning(e.node);
      if v.Some? {
        assert Fold([], Put(acc, e.name, v.value)) == Some(Put(acc, e.name, v.value));
      }
    } else {
      assert (es + [e])[0] == es[0] && (es + [e])[1..] == es[1..] + [e];
      var v := Meaning(es[0].node);
      if v.Some? {
        FoldSnoc(es[1..], e, Put(acc, es[0].name, v.value));
      }
    }
  }

  /** A document that repeats a name: the key stands where it was first used and has the value that
      came last, and no element is dropped. */
  lemma {:induction false} RepeatedNames(es: Elements)
    requires Fold(es, []).Some?
    ensures var fs := Fold(es, []).value;
            Distinct(fs) && Keys(fs) == FirstNames(es) && LastValues(es, fs)
    ensures forall i :: 0 <= i < |es| ==> es[i].name in FirstNames(es)
    decreases |es|
  {
    hide Meaning, Put;
    if es != [] {
      var before, e := es[..|es| - 1], es[|es| - 1];
      assert es == before + [e];
      FoldSnoc(before, e, []);
      RepeatedNames(before);
      var fs := Fold(before, []).value;
      OneMore(before, e, fs, Meaning(e.node).value);
    }
  }

  lemma {:induction false} OneMore(es: Elements, e: Element, fs: Fields, v: Value)
    requires Distinct(fs) && Keys(fs) == FirstNames(es) && LastValues(es, fs) && Meaning(e.node) == Some(v)
    requires forall i :: 0 <= i < |es| ==> es[i].name in FirstNames(es)
    ensures var r := Put(fs, e.name, v);
            Distinct(r) && Keys(r) == FirstNames(es + [e]) && LastValues(es + [e], r)
  {
    hide Meaning, Put;
    PutTells(fs, e.name, v);
    assert (es + [e])[..|es|] == es;
    assert forall i :: 0 <= i < |fs| ==> fs[i].key == Keys(fs)[i];
    if e.name in FirstNames(es) {
      var i :| 0 <= i < |fs| && fs[i].key == e.name;
      assert FirstAt(fs, i, e.name);
      var r := fs[i := Field(e.name, v)];
      assert Keys(r) == Keys(fs);
      LastValuesStay(es, e, fs, r, v);
    } else {
      var r := fs + [Field(e.name, v)];
      assert forall i :: 0 <= i < |fs| ==> fs[i].key != e.name;
      assert Keys(r) == Keys(fs) + [e.name];
      LastValuesStay(es, e, fs, r, v);
    }
  }

  lemma {:induction false} LastValuesStay(es: Elements, e: Element, fs: Fields, r: Fields, v: Value)
    requires LastValues(es, fs) && Meaning(e.node) == Some(v)
    requires forall k :: 0 <= k < |r| ==>
               if r[k].key == e.name then r[k].value == v else k < |fs| && r[k] == fs[k]
    ensures LastValues(es + [e], r)
  {
    hide Meaning;
    var all := es + [e];
    assert all[|es|] == e;
    forall i, k | 0 <= k < |r| && LastAt(all, i, r[k].key) ensures Meaning(all[i].node) == Some(r[k].value) {
      if r[k].key != e.name {
        assert all[i] == es[i] && forall j :: i < j < |es| ==> all[j] == es[j];
        assert LastAt(es, i, fs[k].key);
      }
    }
  }

  /** The fields without key `key`, in order. */
  function WithoutKey(fs: Fields, key: Bytes): (r: Fields)
  {
    if fs == [] then []
    else
      var before, last := WithoutKey(fs[..|fs| - 1], key), fs[|fs| - 1];
      if last.key == key then before else before + [last]
  }

  lemma {:induction false} WithoutKeyCons(fs: Fields, key: Bytes)
    requires fs != []
    ensures WithoutKey(fs, key) == (if fs[0].key == key then [] else [fs[0]]) + WithoutKey(fs[1..], key)
    decreases |fs|
  {
    var last := |fs| - 1;
    if last == 0 {
      assert fs[..0] == [] && fs[1..] == [];
    } else {
      WithoutKeyCons(fs[..last], key);
      assert fs[..last][1..] == fs[1..][..last - 1] && fs[1..][last - 1] == fs[last];
    }
  }

  lemma {:induction false} RemoveIsWithoutKey(fs: Fields, key: Bytes)
    ensures Remove(fs, key) == WithoutKey(fs, key)
  {
    if fs != [] {
      RemoveIsWithoutKey(fs[1..], key);
      WithoutKeyCons(fs, key);
    }
  }

  /** The encoder's order: the `_id` field, wherever it stands, then the others as they are. */
  lemma {:induction false} IdComesFirst(fs: Fields)
    requires Distinct(fs)
    ensures forall i :: 0 <= i < |fs| && fs[i].key == Ascii("_id") ==>
              IdFirst(fs) == [fs[i]] + WithoutKey(fs, Ascii("_id"))
    ensures (forall i :: 0 <= i < |fs| ==> fs[i].key != Ascii("_id")) ==> IdFirst(fs) == fs
  {
    hide Get, Remove;
    assert ID_KEY == Ascii("_id");
    RemoveIsWithoutKey(fs, ID_KEY);
    forall i | 0 <= i < |fs| && fs[i].key == ID_KEY ensures IdFirst(fs)[0] == fs[i] {
      GetAt(fs, i);
    }
  }
}
