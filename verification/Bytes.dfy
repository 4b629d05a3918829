/**
 Bytes, little-endian integers and slices: the common ground of the BSON codec, the wire
 framing and the message builders.  `Pack*`/`Unpack*` mirror Python's `struct` formats
 `<i`, `<q`, `<I` and `<Q`: packing a value outside the format's range fails.
 */
module Bytes {
  type byte = b: int | 0 <= b < 256
  type Bytes = seq<byte>

  datatype Option<+T> = None | Some(value: T)

  const MIN_INT32: int := -0x8000_0000
  const MAX_INT32: int := 0x7fff_ffff
  const TWO_32: int := 0x1_0000_0000
  const MIN_INT64: int := -0x8000_0000_0000_0000
  const MAX_INT64: int := 0x7fff_ffff_ffff_ffff
  const TWO_64: int := 0x1_0000_0000_0000_0000

  predicate IsInt32(v: int) { MIN_INT32 <= v <= MAX_INT32 }

  predicate IsInt64(v: int) { MIN_INT64 <= v <= MAX_INT64 }

  predicate IsUint32(v: int) { 0 <= v < TWO_32 }

  predicate IsUint64(v: int) { 0 <= v < TWO_64 }

  /** The `n` low bytes of `v`, least significant first. */
  function Le(v: nat, n: nat): (s: Bytes)
    ensures |s| == n
  {
    if n == 0 then [] else [v % 256] + Le(v / 256, n - 1)
  }

  /** The number whose little-endian digits are `s`. */
  function FromLe(s: Bytes): (v: nat)
  {
    if s == [] then 0 else s[0] + 256 * FromLe(s[1..])
  }

  function Pow256(n: nat): (p: nat)
    ensures p > 0
  {
    if n == 0 then 1 else 256 * Pow256(n - 1)
  }

  lemma {:induction false} LeRoundTrip(v: nat, n: nat)
    requires v < Pow256(n)
    ensures FromLe(Le(v, n)) == v
  {
    if n > 0 {
      LeRoundTrip(v / 256, n - 1);
      assert Le(v, n)[1..] == Le(v / 256, n - 1);
    }
  }

  lemma {:induction false} FromLeRoundTrip(s: Bytes)
    ensures FromLe(s) < Pow256(|s|)
    ensures Le(FromLe(s), |s|) == s
  {
    if s != [] {
      FromLeRoundTrip(s[1..]);
      var rest := FromLe(s[1..]);
      assert FromLe(s) % 256 == s[0] && FromLe(s) / 256 == rest;
      assert s == [s[0]] + s[1..];
    }
  }

  lemma {:induction false} Pow256Values()
    ensures Pow256(4) == TWO_32
    ensures Pow256(8) == TWO_64
  {
    assert Pow256(2) == 0x1_0000;
    assert Pow256(4) == 0x1_0000 * 0x1_0000;
    assert Pow256(6) == 0x1_0000 * Pow256(4);
    assert Pow256(8) == 0x1_0000 * Pow256(6);
  }

  // ---- struct formats -------------------------------------------------------------------

  /** Two's complement bytes of a 32-bit integer: format `<i`. */
  function PackInt32(v: int): (s: Bytes)
    requires IsInt32(v)
    ensures |s| == 4
  {
    Le(if v < 0 then v + TWO_32 else v, 4)
  }

  function UnpackInt32(s: Bytes): (v: int)
    requires |s| == 4
  {
    var u := FromLe(s);
    if u > MAX_INT32 then u - TWO_32 else u
  }

  /** Two's complement bytes of a 64-bit integer: format `<q`. */
  function PackInt64(v: int): (s: Bytes)
    requires IsInt64(v)
    ensures |s| == 8
  {
    Le(if v < 0 then v + TWO_64 else v, 8)
  }

  function UnpackInt64(s: Bytes): (v: int)
    requires |s| == 8
  {
    var u := FromLe(s);
    if u > MAX_INT64 then u - TWO_64 else u
  }

  lemma {:induction false} Int32RoundTrip(v: int)
    requires IsInt32(v)
    ensures UnpackInt32(PackInt32(v)) == v
  {
    Pow256Values();
    LeRoundTrip(if v < 0 then v + TWO_32 else v, 4);
  }

  lemma {:induction false} UnpackInt32RoundTrip(s: Bytes)
    requires |s| == 4
    ensures IsInt32(UnpackInt32(s))
    ensures PackInt32(UnpackInt32(s)) == s
  {
    Pow256Values();
    FromLeRoundTrip(s);
  }

  lemma {:induction false} Int64RoundTrip(v: int)
    requires IsInt64(v)
    ensures UnpackInt64(PackInt64(v)) == v
  {
    Pow256Values();
    LeRoundTrip(if v < 0 then v + TWO_64 else v, 8);
  }

  lemma {:induction false} UnpackInt64RoundTrip(s: Bytes)
    requires |s| == 8
    ensures IsInt64(UnpackInt64(s))
    ensures PackInt64(UnpackInt64(s)) == s
  {
    Pow256Values();
    FromLeRoundTrip(s);
  }

  lemma {:induction false} Uint32RoundTrip(v: int)
    requires IsUint32(v)
    ensures FromLe(Le(v, 4)) == v
  {
    Pow256Values();
    LeRoundTrip(v, 4);
  }

  lemma {:induction false} UnpackUint32RoundTrip(s: Bytes)
    requires |s| == 4
    ensures IsUint32(FromLe(s))
    ensures Le(FromLe(s), 4) == s
  {
    Pow256Values();
    FromLeRoundTrip(s);
  }

  // ---- slices ---------------------------------------------------------------------------

  /** `s` stands in `data` at position `pos`. */
  predicate Has(data: Bytes, pos: int, s: Bytes)
  {
    0 <= pos && pos + |s| <= |data| && data[pos..pos + |s|] == s
  }

  lemma {:induction false} HasSplit(data: Bytes, pos: int, a: Bytes, b: Bytes)
    requires Has(data, pos, a + b)
    ensures Has(data, pos, a)
    ensures Has(data, pos + |a|, b)
  {
    var s := data[pos..pos + |a + b|];
    assert data[pos..pos + |a|] == s[..|a|] == a;
    assert data[pos + |a|..pos + |a| + |b|] == s[|a|..] == b;
  }

  lemma {:induction false} HasJoin(data: Bytes, pos: int, a: Bytes, b: Bytes)
    requires Has(data, pos, a)
    requires Has(data, pos + |a|, b)
    ensures Has(data, pos, a + b)
  {
    assert data[pos..pos + |a + b|] == data[pos..pos + |a|] + data[pos + |a|..pos + |a| + |b|];
  }

  // ---- searching for NUL ----------------------------------------------------------------

  predicate NoNul(s: Bytes) { 0 !in s }

  /** Python's `data.index(b"\x00", pos)`. */
  function IndexOfNul(data: Bytes, pos: nat): (r: Option<nat>)
    requires pos <= |data|
    decreases |data| - pos
    ensures r.Some? ==> pos <= r.value < |data| && data[r.value] == 0 && NoNul(data[pos..r.value])
    ensures r.None? ==> NoNul(data[pos..])
  {
    if pos == |data| then None
    else if data[pos] == 0 then Some(pos)
    else
      var r := IndexOfNul(data, pos + 1);
      assert data[pos..] == [data[pos]] + data[pos + 1..];
      assert r.Some? ==> data[pos..r.value] == [data[pos]] + data[pos + 1..r.value];
      r
  }

  lemma {:induction false} IndexOfNulAt(data: Bytes, pos: nat, s: Bytes)
    requires NoNul(s)
    requires Has(data, pos, s + [0])
    ensures IndexOfNul(data, pos) == Some(pos + |s|)
    decreases |s|
  {
    HasSplit(data, pos, s, [0]);
    assert data[pos + |s|] == 0;
    if s != [] {
      assert data[pos] == s[0];
      assert s[0] in s;
      assert Has(data, pos + 1, s[1..] + [0]) by {
        assert s + [0] == [s[0]] + (s[1..] + [0]);
        HasSplit(data, pos, [s[0]], s[1..] + [0]);
      }
      IndexOfNulAt(data, pos + 1, s[1..]);
    }
  }

  // ---- joining --------------------------------------------------------------------------

  function Flatten<T>(parts: seq<seq<T>>): (r: seq<T>)
  {
    if parts == [] then [] else parts[0] + Flatten(parts[1..])
  }

  lemma {:induction false} FlattenSnoc<T>(parts: seq<seq<T>>, last: seq<T>)
    ensures Flatten(parts + [last]) == Flatten(parts) + last
  {
    if parts == [] {
      assert [last][1..] == [];
      assert Flatten([last]) == last + [];
    } else {
      assert (parts + [last])[1..] == parts[1..] + [last];
      FlattenSnoc(parts[1..], last);
    }
  }

  function Sum(xs: seq<int>): (r: int)
  {
    if xs == [] then 0 else Sum(xs[..|xs| - 1]) + xs[|xs| - 1]
  }

  /** The values that are there, in order. */
  function Present<T>(opts: seq<Option<T>>): (r: seq<T>)
  {
    if opts == [] then []
    else Present(opts[..|opts| - 1]) + if opts[|opts| - 1].Some? then [opts[|opts| - 1].value] else []
  }

  // ---- text -----------------------------------------------------------------------------

  /** The bytes of a text of ASCII characters, as a bytes literal has them. */
  function Ascii(text: string): (r: Bytes)
    requires forall i :: 0 <= i < |text| ==> text[i] < 128 as char
    ensures |r| == |text|
    ensures forall i :: 0 <= i < |text| ==> r[i] == text[i] as int
  {
    seq(|text|, i requires 0 <= i < |text| => text[i] as int)
  }
}
