/** Structured serialization of src/btclibs/serialize.h: integers, byte vectors, vectors of anything, pairs. */
module Serialize {
  import opened Basics
  import opened Power
  import opened VarInt

  /** Maximum bytes allocated at once when reading a vector. */
  const MAX_VECTOR_ALLOCATE := 5_000_000

  /** A serializable type; a vector also carries the in-memory size of its element type. */
  datatype Schema =
    | Fixed(bytes: nat)
    | VarIntOf(kind: IntType)
    | ByteVector
    | VectorOf(elem: Schema, elemSize: nat)
    | PairOf(first: Schema, second: Schema)

  datatype Val = Number(n: nat) | Bytes(bytes: seq<Byte>) | Vector(elems: seq<Val>) | Pair(a: Val, b: Val)

  /** The static assertions of the templates. */
  ghost predicate WellFormed(t: Schema) {
    match t
    case Fixed(bytes) => bytes in {1, 2, 4, 8}
    case VarIntOf(kind) => Supported(kind)
    case ByteVector => true
    case VectorOf(elem, elemSize) => 1 <= elemSize <= MAX_VECTOR_ALLOCATE && WellFormed(elem)
    case PairOf(a, b) => WellFormed(a) && WellFormed(b)
  }

  /** v is a value of type t whose vectors are within the size limit that readers enforce. */
  ghost predicate HasType(t: Schema, v: Val)
    requires WellFormed(t)
    decreases t, 0
  {
    match t
    case Fixed(bytes) => v.Number? && v.n < Pow(256, bytes)
    case VarIntOf(kind) => v.Number? && v.n <= Max(kind)
    case ByteVector => v.Bytes? && |v.bytes| <= MAX_SIZE
    case VectorOf(elem, _) => v.Vector? && |v.elems| <= MAX_SIZE && AllHaveType(elem, v.elems)
    case PairOf(a, b) => v.Pair? && HasType(a, v.a) && HasType(b, v.b)
  }

  ghost predicate AllHaveType(t: Schema, vs: seq<Val>)
    requires WellFormed(t)
    decreases t, 1
  {
    forall i :: 0 <= i < |vs| ==> HasType(t, vs[i])
  }

  // ---------- writing ----------

  ghost function Written(t: Schema, v: Val): seq<Byte>
    requires WellFormed(t) && HasType(t, v)
    decreases t, 0
  {
    match t
    case Fixed(bytes) => LittleEndian(v.n, bytes)
    case VarIntOf(_) => VarIntBytes(v.n)
    case ByteVector => CompactBytes(|v.bytes|) + v.bytes
    case VectorOf(elem, _) => CompactBytes(|v.elems|) + WrittenAll(elem, v.elems)
    case PairOf(a, b) => Written(a, v.a) + Written(b, v.b)
  }

  ghost function WrittenAll(t: Schema, vs: seq<Val>): seq<Byte>
    requires WellFormed(t) && AllHaveType(t, vs)
    decreases t, |vs| + 1
  {
    if vs == [] then [] else Written(t, vs[0]) + WrittenAll(t, vs[1..])
  }

  // ---------- reading ----------

  ghost function ReadFixed(bytes: nat, s: seq<Byte>): Parsed<Val> {
    if |s| < bytes then Fail else Ok(Number(FromLittleEndian(s[..bytes])), s[bytes..])
  }

  ghost function Parse(t: Schema, s: seq<Byte>): Parsed<Val>
    requires WellFormed(t)
    decreases t, 0
  {
    match t
    case Fixed(bytes) => ReadFixed(bytes, s)
    case VarIntOf(kind) =>
      (match ReadVarIntFrom(0, s, Max(kind)) case Fail => Fail case Ok(n, rest) => Ok(Number(n), rest))
    case ByteVector =>
      (match ReadCompact(s, true)
       case Fail => Fail
       case Ok(n, rest) => if |rest| < n then Fail else Ok(Bytes(rest[..n]), rest[n..]))
    case VectorOf(elem, _) =>
      (match ReadCompact(s, true)
       case Fail => Fail
       case Ok(n, rest) =>
         match ParseAll(elem, n, rest) case Fail => Fail case Ok(vs, rest') => Ok(Vector(vs), rest'))
    case PairOf(a, b) =>
      match Parse(a, s)
      case Fail => Fail
      case Ok(x, rest) => match Parse(b, rest) case Fail => Fail case Ok(y, rest') => Ok(Pair(x, y), rest')
  }

  ghost function ParseAll(t: Schema, n: nat, s: seq<Byte>): Parsed<seq<Val>>
    requires WellFormed(t)
    decreases t, n + 1
  {
    if n == 0 then Ok([], s) else
      match Parse(t, s)
      case Fail => Fail
      case Ok(v, rest) => match ParseAll(t, n - 1, rest) case Fail => Fail case Ok(vs, rest') => Ok([v] + vs, rest')
  }

  /** Serialize then unserialize returns the value and leaves any suffix untouched, for every type and nesting. */
  lemma {:induction false} RoundTrip(t: Schema, v: Val, rest: seq<Byte>)
    requires WellFormed(t) && HasType(t, v)
    ensures Parse(t, Written(t, v) + rest) == Ok(v, rest)
    decreases t, 0
  {
    hide ReadVarIntFrom, ReadCompact, VarIntBytes, CompactBytes, LittleEndian, FromLittleEndian, Pow;
    var s := Written(t, v) + rest;
    match t
    case Fixed(bytes) =>
      LittleEndianRoundTrip(v.n, bytes);
      assert s[..bytes] == LittleEndian(v.n, bytes) && s[bytes..] == rest;
    case VarIntOf(kind) =>
      VarIntRoundTrip(v.n, rest, Max(kind));
    case ByteVector =>
      assert s == CompactBytes(|v.bytes|) + (v.bytes + rest);
      CompactRoundTrip(|v.bytes|, v.bytes + rest, true);
      assert (v.bytes + rest)[..|v.bytes|] == v.bytes && (v.bytes + rest)[|v.bytes|..] == rest;
    case VectorOf(elem, _) =>
      var tail := WrittenAll(elem, v.elems) + rest;
      assert s == CompactBytes(|v.elems|) + tail;
      CompactRoundTrip(|v.elems|, tail, true);
      RoundTripAll(elem, v.elems, rest);
    case PairOf(a, b) =>
      var tail := Written(b, v.b) + rest;
      assert s == Written(a, v.a) + tail;
      RoundTrip(a, v.a, tail);
      RoundTrip(b, v.b, rest);
  }

  /** Where the parts of a value stand in its serialization. */
  lemma Layout(t: Schema, v: Val)
    requires WellFormed(t) && HasType(t, v)
    ensures var w := Written(t, v);
            match t
            case Fixed(bytes) =>
              |w| == bytes && forall i: nat :: i < bytes ==> Pow(256, i) > 0 && w[i] == v.n / Pow(256, i) % 256
            case VarIntOf(_) => w == VarIntBytes(v.n)
            case ByteVector =>
              var size := CompactBytes(|v.bytes|); size <= w && w[|size|..] == v.bytes
            case VectorOf(elem, _) =>
              var size := CompactBytes(|v.elems|); size <= w && w[|size|..] == WrittenAll(elem, v.elems)
            case PairOf(a, b) =>
              Written(a, v.a) <= w && w[|Written(a, v.a)|..] == Written(b, v.b)
  {
    hide VarIntBytes, CompactBytes, LittleEndian, Pow;
    match t
    case Fixed(bytes) =>
      forall i: nat | i < bytes ensures Pow(256, i) > 0 && Written(t, v)[i] == v.n / Pow(256, i) % 256 {
        LittleEndianBytes(v.n, bytes, i);
      }
    case _ =>
  }

  /** The elements of a vector are written one after another, in their order. */
  lemma ElementPlace(t: Schema, vs: seq<Val>, i: nat)
    requires WellFormed(t) && AllHaveType(t, vs) && i < |vs|
    ensures AllHaveType(t, vs[..i]) && AllHaveType(t, vs[i + 1..]) && HasType(t, vs[i])
    ensures WrittenAll(t, vs) == WrittenAll(t, vs[..i]) + Written(t, vs[i]) + WrittenAll(t, vs[i + 1..])
  {
    hide Written, HasType, WrittenAll;
    var before, rest := vs[..i], vs[i + 1..];
    assert vs == before + ([vs[i]] + rest);
    ConsTyped(t, vs[i], rest);
    JoinWritten(t, before, [vs[i]] + rest);
    Associate(WrittenAll(t, before), Written(t, vs[i]), WrittenAll(t, rest));
  }

  lemma {:induction false} JoinWritten(t: Schema, a: seq<Val>, b: seq<Val>)
    requires WellFormed(t) && AllHaveType(t, a) && AllHaveType(t, b)
    ensures AllHaveType(t, a + b) && WrittenAll(t, a + b) == WrittenAll(t, a) + WrittenAll(t, b)
    decreases |a|
  {
    hide Written, HasType;
    if a == [] {
      assert a + b == b;
    } else {
      JoinWritten(t, a[1..], b);
      assert (a + b)[1..] == a[1..] + b;
      Associate(Written(t, a[0]), WrittenAll(t, a[1..]), WrittenAll(t, b));
    }
  }

  lemma Associate(a: seq<Byte>, b: seq<Byte>, c: seq<Byte>)
    ensures (a + b) + c == a + (b + c)
  {
  }

  lemma ConsTyped(t: Schema, v: Val, vs: seq<Val>)
    requires WellFormed(t)
    ensures AllHaveType(t, [v] + vs) <==> HasType(t, v) && AllHaveType(t, vs)
    ensures AllHaveType(t, [v] + vs) ==> WrittenAll(t, [v] + vs) == Written(t, v) + WrittenAll(t, vs)
  {
    hide Written, HasType;
    var all := [v] + vs;
    assert all[1..] == vs && all[0] == v;
    assert forall i :: 0 <= i < |vs| ==> vs[i] == all[i + 1];
  }

  lemma {:induction false} RoundTripAll(t: Schema, vs: seq<Val>, rest: seq<Byte>)
    requires WellFormed(t) && AllHaveType(t, vs)
    ensures ParseAll(t, |vs|, WrittenAll(t, vs) + rest) == Ok(vs, rest)
    decreases t, |vs| + 1
  {
    hide Written, Parse, HasType;
    if vs == [] {
      assert WrittenAll(t, vs) + rest == rest;
    } else {
      var v, others := vs[0], vs[1..];
      assert vs == [v] + others;
      ConsTyped(t, v, others);
      var tail := WrittenAll(t, others) + rest;
      Associate(Written(t, v), WrittenAll(t, others), rest);
      RoundTrip(t, v, tail);
      RoundTripAll(t, others, rest);
    }
  }

  /** And the other way: whatever is accepted is exactly what the writer would have written. */
  lemma {:induction false} OneToOne(t: Schema, s: seq<Byte>)
    requires WellFormed(t) && Parse(t, s).Ok?
    ensures var r := Parse(t, s); HasType(t, r.value) && s == Written(t, r.value) + r.rest
    decreases t, 0
  {
    hide ReadVarIntFrom, ReadCompact, VarIntBytes, CompactBytes, LittleEndian, FromLittleEndian, Pow;
    var r := Parse(t, s);
    match t
    case Fixed(bytes) =>
      LittleEndianOnto(s[..bytes]);
      assert s == s[..bytes] + s[bytes..];
    case VarIntOf(kind) =>
      VarIntOneToOne(s, kind);
    case ByteVector =>
      CompactOneToOne(s, true);
      var n, rest := ReadCompact(s, true).value, ReadCompact(s, true).rest;
      assert rest == rest[..n] + rest[n..];
      Associate(CompactBytes(n), rest[..n], rest[n..]);
    case VectorOf(elem, _) =>
      CompactOneToOne(s, true);
      var n, rest := ReadCompact(s, true).value, ReadCompact(s, true).rest;
      OneToOneAll(elem, n, rest);
      Associate(CompactBytes(n), WrittenAll(elem, r.value.elems), r.rest);
    case PairOf(a, b) =>
      OneToOne(a, s);
      OneToOne(b, Parse(a, s).rest);
      Associate(Written(a, r.value.a), Written(b, r.value.b), r.rest);
  }

  lemma {:induction false} OneToOneAll(t: Schema, n: nat, s: seq<Byte>)
    requires WellFormed(t) && ParseAll(t, n, s).Ok?
    ensures var r := ParseAll(t, n, s);
            |r.value| == n && AllHaveType(t, r.value) && s == WrittenAll(t, r.value) + r.rest
    decreases t, n + 1
  {
    if n > 0 {
      hide Written, Parse, HasType, AllHaveType, WrittenAll;
      OneToOne(t, s);
      var x := Parse(t, s);
      OneToOneAll(t, n - 1, x.rest);
      var y := ParseAll(t, n - 1, x.rest);
      ConsTyped(t, x.value, y.value);
      Associate(Written(t, x.value), WrittenAll(t, y.value), y.rest);
    }
  }
}
