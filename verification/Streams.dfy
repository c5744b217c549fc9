/** DataStream of src/btclibs/streams.h: a byte vector with a read position, behaving as a byte queue. */
module Streams {
  import opened Basics

  const SIZE_MAX := 0xffff_ffff_ffff_ffff

  /** CheckedAdd on size_t. */
  function CheckedAdd(i: nat, j: nat): Option<nat> {
    if SIZE_MAX - i < j then None else Some(i + j)
  }

  /** It fails exactly when the sum does not fit in 64 bits. */
  lemma CheckedAddExactly(i: nat, j: nat)
    ensures CheckedAdd(i, j) == if i + j < 0x1_0000_0000_0000_0000 then Some(i + j) else None
  {
  }

  class DataStream {
    var vch: seq<Byte>
    var readPos: nat

    /** The read position is inside the vector, and a vector fits in the address space. */
    ghost predicate Valid()
      reads this
    {
      readPos <= |vch| <= SIZE_MAX
    }

    /** The queue: everything written and not yet read. */
    ghost function Contents(): seq<Byte>
      requires Valid()
      reads this
    {
      vch[readPos..]
    }

    constructor (bytes: seq<Byte>)
      requires |bytes| <= SIZE_MAX
      ensures Valid() && Contents() == bytes
    {
      vch, readPos := bytes, 0;
    }

    /** read() and ignore() advance the same way; a fully read vector is cleared. */
    method Advance(n: nat) returns (ok: bool)
      requires Valid()
      modifies this
      ensures Valid()
      ensures ok <==> n <= |old(Contents())|
      ensures Contents() == if ok then old(Contents())[n..] else old(Contents())
    {
      var next := CheckedAdd(readPos, n);
      if next.None? || next.value > |vch| {
        return false;
      }
      ghost var before := Contents();
      assert before[n..] == vch[next.value..];
      if next.value == |vch| {
        readPos, vch := 0, [];
        return true;
      }
      readPos := next.value;
      return true;
    }

    method Read(n: nat) returns (r: Option<seq<Byte>>)
      requires Valid()
      modifies this
      ensures Valid()
      ensures r.Some? <==> n <= |old(Contents())|
      ensures r.Some? ==> r.value == old(Contents())[..n] && Contents() == old(Contents())[n..]
      ensures r.None? ==> Contents() == old(Contents())
    {
      if n == 0 {
        return Some([]);
      }
      ghost var before := Contents();
      var all, start := vch, readPos;
      var ok := Advance(n);
      if !ok {
        return None;
      }
      assert all[start..start + n] == before[..n];
      return Some(all[start..start + n]);
    }

    method Ignore(n: nat) returns (ok: bool)
      requires Valid()
      modifies this
      ensures Valid()
      ensures ok <==> n <= |old(Contents())|
      ensures Contents() == if ok then old(Contents())[n..] else old(Contents())
    {
      ok := Advance(n);
    }

    method Write(src: seq<Byte>)
      requires Valid() && |vch| + |src| <= SIZE_MAX
      modifies this
      ensures Valid() && Contents() == old(Contents()) + src
      ensures |vch| == old(|vch|) + |src|
    {
      vch := vch + src;
    }
  }

  /** First in, first out: what is written after the queue's contents is read after them, in one or several reads. */
  method QueueOrder(s: DataStream, a: seq<Byte>, b: seq<Byte>) returns (x: Option<seq<Byte>>, y: Option<seq<Byte>>)
    requires s.Valid() && s.Contents() == [] && |s.vch| + |a| + |b| <= SIZE_MAX
    modifies s
    ensures s.Valid() && x == Some(a) && y == Some(b) && s.Contents() == []
  {
    s.Write(a);
    s.Write(b);
    assert s.Contents() == a + b && (a + b)[..|a|] == a && (a + b)[|a|..] == b;
    x := s.Read(|a|);
    assert b[..|b|] == b;
    y := s.Read(|b|);
  }
}
