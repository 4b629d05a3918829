/**
 The growable buffer of bson/buffer.c.  Sizes and positions are C ints: additions and doublings
 wrap.  Allocation is assumed to succeed.
 */
module CBuffer {
  import opened Bytes

  const INITIAL_BUFFER_SIZE: int := 256

  /** A C int holding the exact value `n` modulo 2^32. */
  function Wrap32(n: int): (r: int)
    ensures IsInt32(r) && (r - n) % TWO_32 == 0
    ensures IsInt32(n) ==> r == n
  {
    var m := n % TWO_32;
    if m > MAX_INT32 then m - TWO_32 else m
  }

  /** The doubling loop of `buffer_grow`: it ends, although doubling may wrap, and reaches `minLength`. */
  method GrownSize(current: int, minLength: int) returns (size: int)
    requires IsInt32(current) && IsInt32(minLength)
    ensures IsInt32(size) && size >= minLength && size >= current
  {
    size := current;
    while size < minLength
      invariant IsInt32(size) && size >= current
      decreases minLength - size
    {
      var oldSize := size;
      size := Wrap32(size * 2);
      if size <= oldSize {
        // Size did not increase: an overflow, or size < 1.
        size := minLength;
      }
    }
  }

  /** What appending `s` gives, unless the total would exceed a C int. */
  function Appended(contents: Bytes, s: Option<Bytes>): (r: Option<Bytes>)
    ensures r.Some? ==> |r.value| <= MAX_INT32
  {
    if s.Some? && |contents| + |s.value| <= MAX_INT32 then Some(contents + s.value) else None
  }

  class Buffer {
    var data: array<byte>
    var size: int
    var position: int

    ghost predicate Valid()
      reads this
    {
      size == data.Length && 0 <= position <= size <= MAX_INT32
    }

    /** The bytes written so far. */
    ghost function Contents(): (r: Bytes)
      requires Valid()
      reads this, data
    {
      data[..position]
    }

    constructor ()
      ensures Valid() && Contents() == [] && fresh(data)
    {
      data := new byte[INITIAL_BUFFER_SIZE];
      size := INITIAL_BUFFER_SIZE;
      position := 0;
    }

    /** `buffer_grow`: more room, same contents. */
    method Grow(minLength: int)
      requires Valid() && IsInt32(minLength)
      modifies this
      ensures Valid() && size >= minLength && size >= old(size)
      ensures position == old(position) && Contents() == old(Contents())
      ensures data == old(data) || fresh(data)
    {
      if size >= minLength {
        return;
      }
      var newSize := GrownSize(size, minLength);
      var bigger := new byte[newSize];
      forall i | 0 <= i < size {
        bigger[i] := data[i];
      }
      data := bigger;
      size := newSize;
      assert data[..position] == old(data[..position]);
    }

    /** `buffer_assure_space`: refuses exactly when the new length would not fit a C int. */
    method AssureSpace(n: int) returns (ok: bool)
      requires Valid() && 0 <= n <= MAX_INT32
      modifies this
      ensures Valid() && position == old(position) && Contents() == old(Contents())
      ensures data == old(data) || fresh(data)
      ensures ok <==> position + n <= MAX_INT32
      ensures ok ==> position + n <= size
    {
      var newSize := Wrap32(position + n);
      if newSize < position {
        return false;
      }
      if newSize <= size {
        return true;
      }
      Grow(newSize);
      return true;
    }

    /** `pymongo_buffer_save_space`: skips `n` bytes whose value is left open. */
    method SaveSpace(n: int) returns (start: int)
      requires Valid() && 0 <= n <= MAX_INT32
      modifies this
      ensures Valid() && (data == old(data) || fresh(data))
      ensures start == if old(position) + n <= MAX_INT32 then old(position) else -1
      ensures start >= 0 ==> position == old(position) + n && Contents()[..old(position)] == old(Contents())
      ensures start < 0 ==> Contents() == old(Contents())
    {
      start := position;
      var ok := AssureSpace(n);
      if !ok {
        return -1;
      }
      ghost var before := Contents();
      position := position + n;
      assert Contents()[..start] == data[..start] == before;
    }

    /** `pymongo_buffer_write`. */
    method Write(s: Bytes) returns (ok: bool)
      requires Valid() && |s| <= MAX_INT32
      modifies this, data
      ensures Valid() && (data == old(data) || fresh(data))
      ensures ok <==> Appended(old(Contents()), Some(s)).Some?
      ensures Contents() == if ok then old(Contents()) + s else old(Contents())
    {
      ok := AssureSpace(|s|);
      if !ok {
        return;
      }
      ghost var before := Contents();
      var p := position;
      forall i | 0 <= i < |s| {
        data[p + i] := s[i];
      }
      assert data[..p] == before;
      position := position + |s|;
      assert data[p..position] == s;
      assert data[..position] == data[..p] + data[p..position];
    }

    /** Storing into bytes already written: a type byte or a length. */
    method Patch(at: int, s: Bytes)
      requires Valid() && 0 <= at && at + |s| <= position
      modifies data
      ensures Valid() && Contents() == old(Contents())[..at] + s + old(Contents())[at + |s|..]
    {
      forall i | 0 <= i < |s| {
        data[at + i] := s[i];
      }
      ghost var was := old(Contents());
      assert data[..at] == was[..at];
      assert data[at..at + |s|] == s;
      assert data[at + |s|..position] == was[at + |s|..];
      assert data[..position] == data[..at] + data[at..at + |s|] + data[at + |s|..position];
    }

    /** `pymongo_buffer_update_position`, used to roll back. */
    method UpdatePosition(newPosition: int)
      requires Valid() && 0 <= newPosition <= position
      modifies this`position
      ensures Valid() && Contents() == old(Contents())[..newPosition]
    {
      position := newPosition;
    }
  }
}
