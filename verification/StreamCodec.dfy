/** The readers and writers of src/btclibs/serialize.h over a DataStream, proved against Serialize and VarInt. */
module StreamCodec {
  import opened Basics
  import opened Streams
  import opened VarInt
  import opened Serialize

  /** There is room for n more bytes in the stream's vector. */
  ghost predicate HasRoom(s: DataStream, n: nat)
    reads s
  {
    s.Valid() && |s.vch| + n <= SIZE_MAX
  }

  // ---------- VarInt ----------

  method GetSizeOfVarInt(value: nat) returns (size: nat)
    ensures size == |VarIntBytes(value)|
  {
    var n := value;
    size := 1;
    while n > 0x7f
      invariant size >= 1
      invariant size - 1 + |if size == 1 then VarIntBytes(n) else Continued(n)| == |VarIntBytes(value)|
      decreases n
    {
      n := n / 128 - 1;
      size := size + 1;
    }
  }

  /** The first loop: digits are produced last first into the scratch buffer. */
  method FillDigits(tmp: array<Byte>, value: nat) returns (len: nat)
    requires |VarIntBytes(value)| <= tmp.Length
    modifies tmp
    ensures len + 1 == |VarIntBytes(value)|
    ensures forall k :: 0 <= k <= len ==> tmp[k] == VarIntBytes(value)[len - k]
  {
    hide VarIntBytes, Continued, Rest;
    ghost var all := VarIntBytes(value);
    var n := value;
    len := 0;
    RestStart(value);
    while n > 0x7f
      invariant len < |all| && |Rest(n, len)| == |all| - len && Rest(n, len) == all[..|all| - len]
      invariant forall k :: 0 <= k < len ==> tmp[k] == all[|all| - 1 - k]
      decreases n
    {
      RestStep(n, len);
      var digit: Byte := n % 128 + if len > 0 then 128 else 0;
      tmp[len] := digit;
      DropLast(all, len, Rest(n / 128 - 1, len + 1), digit);
      n := n / 128 - 1;
      len := len + 1;
    }
    RestEnd(n, len);
    tmp[len] := n + if len > 0 then 128 else 0;
    assert all[..|all| - len][0] == all[0];
  }

  /** WriteVarInt: the scratch buffer of (bits+6)/7 bytes is never overrun; its digits are written in order. */
  method WriteVarInt(os: DataStream, value: nat, t: IntType)
    requires Supported(t) && value <= Max(t) && HasRoom(os, |VarIntBytes(value)|)
    modifies os
    ensures os.Valid() && os.Contents() == old(os.Contents()) + VarIntBytes(value)
    ensures |os.vch| == old(|os.vch|) + |VarIntBytes(value)|
  {
    hide VarIntBytes;
    VarIntFitsBuffer(value, t);
    ghost var all := VarIntBytes(value);
    var tmp := new Byte[BufferSize(t)];
    var len := FillDigits(tmp, value);
    ghost var before := os.Contents();
    var i := len + 1;
    while i > 0
      invariant 0 <= i <= len + 1 == |all|
      invariant HasRoom(os, i) && os.Contents() == before + all[..|all| - i]
      invariant |os.vch| == old(|os.vch|) + |all| - i
      invariant forall k :: 0 <= k <= len ==> tmp[k] == all[len - k]
    {
      i := i - 1;
      os.Write([tmp[i]]);
      assert all[..|all| - i] == all[..|all| - i - 1] + [tmp[i]];
    }
    assert all[..|all|] == all;
  }

  lemma DropLast(all: seq<Byte>, len: nat, front: seq<Byte>, digit: Byte)
    requires len < |all| && all[..|all| - len] == front + [digit] && |front| >= 1
    ensures len + 1 < |all| && |front| == |all| - len - 1 && front == all[..|all| - len - 1]
    ensures all[|all| - 1 - len] == digit
  {
    assert all[..|all| - len][..|all| - len - 1] == all[..|all| - len - 1];
    assert all[..|all| - len][|all| - len - 1] == all[|all| - 1 - len];
  }

  /** The bytes still to be produced. */
  ghost function Rest(n: nat, len: nat): seq<Byte> {
    if len == 0 then VarIntBytes(n) else Continued(n)
  }

  lemma RestStep(n: nat, len: nat)
    requires n > 0x7f
    ensures Rest(n, len) == Rest(n / 128 - 1, len + 1) + [n % 128 + if len > 0 then 128 else 0]
    ensures |Rest(n / 128 - 1, len + 1)| >= 1
  {
  }

  lemma RestStart(n: nat)
    ensures Rest(n, 0) == VarIntBytes(n) && VarIntBytes(n)[..|VarIntBytes(n)|] == VarIntBytes(n)
    ensures |VarIntBytes(n)| >= 1
  {
  }

  lemma RestEnd(n: nat, len: nat)
    requires n <= 0x7f
    ensures Rest(n, len) == [n + if len > 0 then 128 else 0]
  {
  }

  method ReadVarInt(src: DataStream, t: IntType) returns (r: Option<nat>)
    requires src.Valid() && Supported(t)
    modifies src
    ensures src.Valid()
    ensures match ReadVarIntFrom(0, old(src.Contents()), Max(t))
            case Ok(v, rest) => r == Some(v) && src.Contents() == rest
            case Fail => r == None
  {
    var max := Max(t);
    var n: nat := 0;
    ghost var goal := ReadVarIntFrom(0, src.Contents(), max);
    while true
      invariant src.Valid()
      invariant ReadVarIntFrom(n, src.Contents(), max) == goal
      decreases |src.Contents()|
    {
      var byte := src.Read(1);
      if byte.None? || n > max / 128 {
        return None;
      }
      var ch := byte.value[0];
      n := n * 128 + ch % 128;
      if ch >= 128 {
        if n == max {
          return None;
        }
        n := n + 1;
      } else {
        return Some(n);
      }
    }
  }

  // ---------- CompactSize ----------

  method WriteCompactSize(os: DataStream, n: nat)
    requires n <= 0xffff_ffff_ffff_ffff && HasRoom(os, 1 + CompactLength(n))
    modifies os
    ensures os.Valid() && os.Contents() == old(os.Contents()) + CompactBytes(n)
    ensures |os.vch| == old(|os.vch|) + 1 + CompactLength(n)
  {
    ghost var before := os.Contents();
    if n < 253 {
      os.Write([n]);
    } else if n <= 0xffff {
      os.Write([253]);
      os.Write(LittleEndian(n, 2));
    } else if n <= 0xffff_ffff {
      os.Write([254]);
      os.Write(LittleEndian(n, 4));
    } else {
      os.Write([255]);
      os.Write(LittleEndian(n, 8));
    }
    assert os.Contents() == before + CompactBytes(n);
  }

  method ReadCompactSize(src: DataStream, rangeCheck: bool) returns (r: Option<nat>)
    requires src.Valid()
    modifies src
    ensures src.Valid()
    ensures match ReadCompact(old(src.Contents()), rangeCheck)
            case Ok(n, rest) => r == Some(n) && src.Contents() == rest
            case Fail => r == None
  {
    hide FromLittleEndian;
    ghost var s := src.Contents();
    var marker := src.Read(1);
    if marker.None? {
      return None;
    }
    var ch := marker.value[0];
    var n: nat := ch;
    if ch >= 253 {
      var bytes := src.Read(Following(ch));
      if bytes.None? {
        return None;
      }
      assert s[1..][..Following(ch)] == s[1..1 + Following(ch)];
      n := FromLittleEndian(bytes.value);
      if n < Least(ch) {
        return None;
      }
    }
    if rangeCheck && n > MAX_SIZE {
      return None;
    }
    return Some(n);
  }

  // ---------- byte vectors ----------

  /** The block size of the chunked read. */
  const BLOCK := 1 + 4_999_999

  method ReadBytes(src: DataStream, size: nat) returns (r: Option<seq<Byte>>)
    requires src.Valid()
    modifies src
    ensures src.Valid()
    ensures r.Some? <==> size <= |old(src.Contents())|
    ensures r.Some? ==> r.value == old(src.Contents())[..size] && src.Contents() == old(src.Contents())[size..]
  {
    ghost var s := src.Contents();
    var v: seq<Byte> := [];
    while |v| < size
      invariant src.Valid() && |v| <= size && |v| <= |s|
      invariant v == s[..|v|] && src.Contents() == s[|v|..]
      decreases size - |v|
    {
      var blk := if size - |v| <= BLOCK then size - |v| else BLOCK;
      var part := src.Read(blk);
      if part.None? {
        return None;
      }
      assert s[..|v| + blk] == s[..|v|] + s[|v|..][..blk];
      v := v + part.value;
    }
    return Some(v);
  }

  // ---------- any type ----------

  /** How many elements are reserved per batch. */
  function Batch(elemSize: nat): (n: nat)
    requires 1 <= elemSize <= MAX_VECTOR_ALLOCATE
    ensures n >= 1
  {
    MAX_VECTOR_ALLOCATE / elemSize
  }

  method Write(os: DataStream, t: Schema, v: Val)
    requires WellFormed(t) && HasType(t, v) && HasRoom(os, |Written(t, v)|)
    modifies os
    ensures os.Valid() && os.Contents() == old(os.Contents()) + Written(t, v)
    ensures |os.vch| == old(|os.vch|) + |Written(t, v)|
    decreases t, 0
  {
    ghost var before := os.Contents();
    match t
    case Fixed(bytes) =>
      os.Write(LittleEndian(v.n, bytes));
    case VarIntOf(kind) =>
      WriteVarInt(os, v.n, kind);
    case ByteVector =>
      WriteCompactSize(os, |v.bytes|);
      if v.bytes != [] {
        os.Write(v.bytes);
      }
      assert before + (CompactBytes(|v.bytes|) + v.bytes) == before + CompactBytes(|v.bytes|) + v.bytes;
    case VectorOf(elem, _) =>
      WriteCompactSize(os, |v.elems|);
      WriteElements(os, elem, v.elems);
      Associate(before, CompactBytes(|v.elems|), WrittenAll(elem, v.elems));
    case PairOf(a, b) =>
      Write(os, a, v.a);
      Write(os, b, v.b);
      Associate(before, Written(a, v.a), Written(b, v.b));
  }

  method WriteElements(os: DataStream, t: Schema, vs: seq<Val>)
    requires WellFormed(t) && AllHaveType(t, vs) && HasRoom(os, |WrittenAll(t, vs)|)
    modifies os
    ensures os.Valid() && os.Contents() == old(os.Contents()) + WrittenAll(t, vs)
    ensures |os.vch| == old(|os.vch|) + |WrittenAll(t, vs)|
    decreases t, 1
  {
    hide Written, HasType;
    ghost var before := os.Contents();
    ghost var done: seq<Byte> := [];
    for i := 0 to |vs|
      invariant AllHaveType(t, vs[i..]) && done + WrittenAll(t, vs[i..]) == WrittenAll(t, vs)
      invariant HasRoom(os, |WrittenAll(t, vs[i..])|) && os.Contents() == before + done
      invariant |os.vch| == old(|os.vch|) + |done|
    {
      assert vs[i..] == [vs[i]] + vs[i + 1..];
      ConsTyped(t, vs[i], vs[i + 1..]);
      Associate(done, Written(t, vs[i]), WrittenAll(t, vs[i + 1..]));
      Associate(before, done, Written(t, vs[i]));
      Write(os, t, vs[i]);
      done := done + Written(t, vs[i]);
    }
    assert vs[|vs|..] == [];
    assert done + [] == done;
  }

  method Read(src: DataStream, t: Schema) returns (r: Option<Val>)
    requires src.Valid() && WellFormed(t)
    modifies src
    ensures src.Valid()
    ensures match Parse(t, old(src.Contents()))
            case Ok(v, rest) => r == Some(v) && src.Contents() == rest
            case Fail => r == None
    decreases t, 0
  {
    match t
    case Fixed(bytes) =>
      var b := src.Read(bytes);
      r := if b.None? then None else Some(Number(FromLittleEndian(b.value)));
    case VarIntOf(kind) =>
      var n := ReadVarInt(src, kind);
      r := if n.None? then None else Some(Number(n.value));
    case ByteVector =>
      var size := ReadCompactSize(src, true);
      if size.None? {
        return None;
      }
      var b := ReadBytes(src, size.value);
      r := if b.None? then None else Some(Bytes(b.value));
    case VectorOf(elem, elemSize) =>
      var size := ReadCompactSize(src, true);
      if size.None? {
        return None;
      }
      var vs := ReadElements(src, elem, elemSize, size.value);
      r := if vs.None? then None else Some(Vector(vs.value));
    case PairOf(a, b) =>
      var x := Read(src, a);
      if x.None? {
        return None;
      }
      var y := Read(src, b);
      r := if y.None? then None else Some(Pair(x.value, y.value));
  }

  ghost function Prepend(vs: seq<Val>, r: Parsed<seq<Val>>): Parsed<seq<Val>> {
    match r case Fail => Fail case Ok(us, rest) => Ok(vs + us, rest)
  }

  lemma ParseNext(t: Schema, vs: seq<Val>, n: nat, s: seq<Byte>)
    requires WellFormed(t) && n >= 1
    ensures Prepend(vs, ParseAll(t, n, s)) ==
            match Parse(t, s) case Fail => Fail case Ok(v, rest) => Prepend(vs + [v], ParseAll(t, n - 1, rest))
  {
    hide Parse;
    if Parse(t, s).Ok? && ParseAll(t, n - 1, Parse(t, s).rest).Ok? {
      var v, us := Parse(t, s).value, ParseAll(t, n - 1, Parse(t, s).rest).value;
      assert vs + ([v] + us) == (vs + [v]) + us;
    }
  }

  /** Elements are read in batches so that a claimed size never reserves more than one batch ahead. */
  method ReadElements(src: DataStream, t: Schema, elemSize: nat, size: nat) returns (r: Option<seq<Val>>)
    requires src.Valid() && WellFormed(t) && 1 <= elemSize <= MAX_VECTOR_ALLOCATE
    modifies src
    ensures src.Valid()
    ensures match ParseAll(t, size, old(src.Contents()))
            case Ok(vs, rest) => r == Some(vs) && src.Contents() == rest
            case Fail => r == None
    decreases t, 1
  {
    hide Parse;
    ghost var goal := ParseAll(t, size, src.Contents());
    var v: seq<Val> := [];
    var reserved := 0;
    assert Prepend([], goal) == goal by { if goal.Ok? { assert [] + goal.value == goal.value; } }
    while reserved < size
      invariant src.Valid() && |v| == reserved <= size
      invariant Prepend(v, ParseAll(t, size - |v|, src.Contents())) == goal
    {
      reserved := if size <= reserved + Batch(elemSize) then size else reserved + Batch(elemSize);
      while |v| < reserved
        invariant src.Valid() && |v| <= reserved <= size
        invariant Prepend(v, ParseAll(t, size - |v|, src.Contents())) == goal
      {
        ParseNext(t, v, size - |v|, src.Contents());
        var elem := Read(src, t);
        if elem.None? {
          return None;
        }
        v := v + [elem.value];
      }
    }
    assert v + [] == v;
    return Some(v);
  }
}
