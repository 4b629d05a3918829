/** Python's `io.BytesIO` as the message builders use it: write at a position, seek, tell. */
module ByteStream {
  import opened Bytes

  /** `data` after writing `s` at `pos`: overwrites, and extends past the end. */
  function Overwrite(data: Bytes, pos: nat, s: Bytes): (r: Bytes)
    requires pos <= |data|
    ensures |r| == if pos + |s| > |data| then pos + |s| else |data|
  {
    data[..pos] + s + (if pos + |s| < |data| then data[pos + |s|..] else [])
  }

  lemma {:induction false} OverwriteAtEnd(data: Bytes, s: Bytes)
    ensures Overwrite(data, |data|, s) == data + s
  {
    assert data[..|data|] == data;
  }

  /** Writing over the middle part of `a + hole + b`. */
  lemma {:induction false} OverwriteHole(a: Bytes, hole: Bytes, b: Bytes, s: Bytes)
    requires |hole| == |s|
    ensures Overwrite(a + hole + b, |a|, s) == a + s + b
  {
    var data := a + hole + b;
    assert data[..|a|] == a;
    assert |b| > 0 ==> data[|a| + |s|..] == b;
    assert |b| == 0 ==> a + s + b == a + s;
  }

  class BytesIO {
    var data: Bytes
    var pos: nat

    ghost predicate Valid()
      reads this
    {
      pos <= |data|
    }

    constructor ()
      ensures Valid() && data == [] && pos == 0
    {
      data := [];
      pos := 0;
    }

    method Write(s: Bytes)
      requires Valid()
      modifies this
      ensures Valid() && pos == old(pos) + |s|
      ensures data == Overwrite(old(data), old(pos), s)
      ensures old(pos) == |old(data)| ==> data == old(data) + s
    {
      OverwriteAtEnd(data, s);
      data := Overwrite(data, pos, s);
      pos := pos + |s|;
    }

    method Seek(to: nat)
      requires Valid() && to <= |data|
      modifies this
      ensures Valid() && pos == to && data == old(data)
    {
      pos := to;
    }
  }
}
