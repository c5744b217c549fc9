/** VarInt and CompactSize of src/btclibs/serialize.h. */
module VarInt {
  import opened Basics
  import opened Arithmetic
  import opened Power

  datatype Parsed<+T> = Fail | Ok(value: T, rest: seq<Byte>)

  /** The integer types a VarInt is instantiated with. */
  datatype IntType = Unsigned(bytes: nat) | Signed(bytes: nat)

  predicate Supported(t: IntType) {
    t.bytes in {1, 2, 4, 8}
  }

  function Max(t: IntType): nat
    requires Supported(t)
  {
    match t
    case Unsigned(bytes) =>
      if bytes == 1 then 0xff else if bytes == 2 then 0xffff
      else if bytes == 4 then 0xffff_ffff else 0xffff_ffff_ffff_ffff
    case Signed(bytes) =>
      if bytes == 1 then 0x7f else if bytes == 2 then 0x7fff
      else if bytes == 4 then 0x7fff_ffff else 0x7fff_ffff_ffff_ffff
  }

  // ---------- VarInt ----------

  /** All digits but the last: base 128 with one subtracted, the continuation bit set. */
  ghost function Continued(m: nat): (s: seq<Byte>)
    ensures |s| >= 1
  {
    if m < 128 then [m + 128] else Continued(m / 128 - 1) + [m % 128 + 128]
  }

  ghost function VarIntBytes(n: nat): (s: seq<Byte>)
    ensures |s| >= 1
  {
    if n < 128 then [n] else Continued(n / 128 - 1) + [n % 128]
  }

  /** ReadVarInt from the running value n. */
  ghost function ReadVarIntFrom(n: nat, s: seq<Byte>, max: nat): Parsed<nat>
    decreases |s|
  {
    if s == [] then Fail
    else if n > max / 128 then Fail
    else
      var v := n * 128 + s[0] % 128;
      if s[0] >= 128 then
        if v == max then Fail else ReadVarIntFrom(v + 1, s[1..], max)
      else Ok(v, s[1..])
  }

  lemma Digit128(n: nat)
    ensures n / 128 * 128 + n % 128 == n && n % 128 < 128
  {
  }

  /** One continuation byte. */
  lemma ReadMore(n: nat, d: nat, t: seq<Byte>, max: nat)
    requires d < 128 && n <= max / 128 && n * 128 + d < max
    ensures ReadVarIntFrom(n, [d + 128] + t, max) == ReadVarIntFrom(n * 128 + d + 1, t, max)
  {
    var s: seq<Byte> := [d + 128] + t;
    assert s[1..] == t && s[0] % 128 == d;
  }

  /** The last byte. */
  lemma ReadLast(n: nat, d: nat, t: seq<Byte>, max: nat)
    requires d < 128 && n <= max / 128
    ensures ReadVarIntFrom(n, [d] + t, max) == Ok(n * 128 + d, t)
  {
    var s: seq<Byte> := [d] + t;
    assert s[1..] == t && s[0] % 128 == d;
  }

  lemma ContinuedStep(m: nat)
    ensures m < 128 ==> Continued(m) == [m + 128]
    ensures m >= 128 ==> m / 128 >= 1 && Continued(m) == Continued(m / 128 - 1) + [m % 128 + 128]
  {
  }

  lemma {:induction false} ReadContinued(m: nat, t: seq<Byte>, max: nat)
    requires m < max
    ensures ReadVarIntFrom(0, Continued(m) + t, max) == ReadVarIntFrom(m + 1, t, max)
    decreases m
  {
    hide ReadVarIntFrom, Continued;
    Digit128(m);
    DivMono(m, max);
    ContinuedStep(m);
    if m < 128 {
      ReadMore(0, m, t, max);
    } else {
      var last := m % 128 + 128;
      assert Continued(m) + t == Continued(m / 128 - 1) + ([last] + t);
      ReadContinued(m / 128 - 1, [last] + t, max);
      ReadMore(m / 128, m % 128, t, max);
    }
  }

  lemma DivMono(a: nat, b: nat)
    requires a <= b
    ensures a / 128 <= b / 128
  {
  }

  /** Reading what was written gives the value back and leaves the rest of the stream. */
  lemma VarIntRoundTrip(n: nat, rest: seq<Byte>, max: nat)
    requires n <= max
    ensures ReadVarIntFrom(0, VarIntBytes(n) + rest, max) == Ok(n, rest)
  {
    hide ReadVarIntFrom, Continued;
    Digit128(n);
    DivMono(n, max);
    if n < 128 {
      ReadLast(0, n, rest, max);
    } else {
      assert VarIntBytes(n) + rest == Continued(n / 128 - 1) + ([n % 128] + rest);
      ReadContinued(n / 128 - 1, [n % 128] + rest, max);
      ReadLast(n / 128, n % 128, rest, max);
    }
  }

  /** What has been read when the running value is n. */
  ghost function ReadSoFar(n: nat): seq<Byte> {
    if n == 0 then [] else Continued(n - 1)
  }

  lemma ContinuedSplit(n: nat, d: nat)
    requires d < 128
    ensures Continued(n * 128 + d) == ReadSoFar(n) + [d + 128]
    ensures VarIntBytes(n * 128 + d) == ReadSoFar(n) + [d]
  {
    var m := n * 128 + d;
    assert m / 128 == n && m % 128 == d;
  }

  lemma TakeFirst(a: seq<Byte>, s: seq<Byte>)
    requires s != []
    ensures a + s == (a + [s[0]]) + s[1..]
  {
  }

  lemma {:induction false} ReadExactlyFrom(n: nat, s: seq<Byte>, max: nat)
    requires ReadVarIntFrom(n, s, max).Ok?
    ensures ReadSoFar(n) + s == VarIntBytes(ReadVarIntFrom(n, s, max).value) + ReadVarIntFrom(n, s, max).rest
    decreases |s|
  {
    hide Continued, VarIntBytes;
    var d := s[0] % 128;
    ContinuedSplit(n, d);
    assert s[0] == if s[0] >= 128 then d + 128 else d;
    TakeFirst(ReadSoFar(n), s);
    if s[0] >= 128 { ReadExactlyFrom(n * 128 + d + 1, s[1..], max); }
  }

  lemma {:induction false} ReadWithinType(n: nat, s: seq<Byte>, max: nat)
    requires max % 128 == 127 && ReadVarIntFrom(n, s, max).Ok?
    ensures ReadVarIntFrom(n, s, max).value <= max
    decreases |s|
  {
    Digit128(max);
    if s[0] >= 128 { ReadWithinType(n * 128 + s[0] % 128 + 1, s[1..], max); }
  }

  /** The largest value of an integer type of the given number of bytes. */
  lemma MaxIs(t: IntType)
    requires Supported(t)
    ensures match t
            case Unsigned(bytes) => Max(t) == Pow(256, bytes) - 1
            case Signed(bytes) => 2 * Max(t) == Pow(256, bytes) - 2
  {
    BytePowers();
  }

  lemma MaxShape(t: IntType)
    requires Supported(t)
    ensures Max(t) % 128 == 127
  {
  }

  /** One encoding each: every accepted byte string is exactly the writer's output for a value of the type. */
  lemma VarIntOneToOne(s: seq<Byte>, t: IntType)
    requires Supported(t) && ReadVarIntFrom(0, s, Max(t)).Ok?
    ensures var r := ReadVarIntFrom(0, s, Max(t)); s == VarIntBytes(r.value) + r.rest && r.value <= Max(t)
  {
    ReadExactlyFrom(0, s, Max(t));
    assert ReadSoFar(0) + s == s;
    MaxShape(t);
    ReadWithinType(0, s, Max(t));
  }

  /** The number that the low seven bits of the bytes write in base 128, most significant first. */
  ghost function Base128(s: seq<Byte>): nat {
    if s == [] then 0 else Base128(s[..|s| - 1]) * 128 + s[|s| - 1] % 128
  }

  /** 128 + 128^2 + ... + 128^k: the values that k shorter encodings have used up. */
  ghost function UsedUp(k: nat): nat {
    if k == 0 then 0 else 128 * (UsedUp(k - 1) + 1)
  }

  lemma Base128Append(s: seq<Byte>, d: Byte)
    ensures Base128(s + [d]) == Base128(s) * 128 + d % 128
  {
    assert (s + [d])[..|s|] == s;
  }

  /** One more group: what stands before it, less one, is what its value divided by 128 has left. */
  lemma OneMoreGroup(m: nat, front: seq<Byte>, d: Byte)
    requires front != [] && d % 128 == m % 128 && m >= 128
    requires m / 128 - 1 == Base128(front) + UsedUp(|front| - 1)
    ensures m == Base128(front + [d]) + UsedUp(|front|)
  {
    hide Base128;
    Base128Append(front, d);
    Digit128(m);
  }

  /**
   * What the bytes mean: most significant group first, the continuation bit on all but the last, and every length
   * starting where the shorter ones end.
   */
  lemma VarIntMeans(n: nat)
    ensures var s := VarIntBytes(n);
            && n == Base128(s) + UsedUp(|s| - 1)
            && forall i :: 0 <= i < |s| ==> (s[i] >= 128 <==> i < |s| - 1)
  {
    hide Base128, UsedUp, Continued;
    if n < 128 {
      OneGroup(n);
    } else {
      var front := Continued(n / 128 - 1);
      ContinuedMeans(n / 128 - 1);
      ContinuedBits(n / 128 - 1);
      OneMoreGroup(n, front, n % 128);
    }
  }

  lemma OneGroup(d: Byte)
    ensures Base128([d]) == d % 128 && UsedUp(0) == 0
  {
    assert [d] == [] + [d];
    Base128Append([], d);
  }

  lemma {:induction false} ContinuedMeans(m: nat)
    ensures var s := Continued(m); m == Base128(s) + UsedUp(|s| - 1)
  {
    hide Base128, UsedUp;
    if m < 128 {
      OneGroup(m + 128);
    } else {
      ContinuedMeans(m / 128 - 1);
      OneMoreGroup(m, Continued(m / 128 - 1), m % 128 + 128);
    }
  }

  lemma {:induction false} ContinuedBits(m: nat)
    ensures forall i :: 0 <= i < |Continued(m)| ==> Continued(m)[i] >= 128
  {
    if m >= 128 { ContinuedBits(m / 128 - 1); }
  }

  lemma {:induction false} ContinuedLength(m: nat, c: nat)
    requires c >= 1 && m < Pow(128, c)
    ensures |Continued(m)| <= c
    decreases m
  {
    if m >= 128 {
      assert Pow(128, 1) == 128;
      assert c >= 2;
      assert Pow(128, c) == 128 * Pow(128, c - 1);
      Digit128(m);
      CancelLess(128, m / 128, Pow(128, c - 1));
      ContinuedLength(m / 128 - 1, c - 1);
    }
  }

  /** The size of the writer's scratch buffer. */
  function BufferSize(t: IntType): nat {
    (t.bytes * 8 + 6) / 7
  }

  lemma TypePowers()
    ensures Pow(128, 2) == 0x4000 && Pow(128, 3) == 0x20_0000
    ensures Pow(128, 5) == 0x8_0000_0000 && Pow(128, 10) == 0x40_0000_0000_0000_0000
  {
    PowAdd(128, 5, 5);
  }

  /** The buffer is never overrun. */
  lemma VarIntFitsBuffer(n: nat, t: IntType)
    requires Supported(t) && n <= Max(t)
    ensures |VarIntBytes(n)| <= BufferSize(t) == (8 * t.bytes + 6) / 7
  {
    hide Pow;
    TypePowers();
    var c := BufferSize(t);
    assert n < Pow(128, c);
    if n >= 128 {
      Digit128(n);
      ContinuedLength(n, c);
      assert |VarIntBytes(n)| == |Continued(n)|;
    }
  }

  // ---------- little-endian integers ----------

  function LittleEndian(n: nat, len: nat): (s: seq<Byte>)
    ensures |s| == len
  {
    if len == 0 then [] else [n % 256] + LittleEndian(n / 256, len - 1)
  }

  function FromLittleEndian(s: seq<Byte>): nat {
    if s == [] then 0 else s[0] + 256 * FromLittleEndian(s[1..])
  }

  lemma {:induction false} LittleEndianRoundTrip(n: nat, len: nat)
    requires n < Pow(256, len)
    ensures FromLittleEndian(LittleEndian(n, len)) == n
    decreases len
  {
    if len > 0 {
      assert n == n / 256 * 256 + n % 256;
      CancelLess(256, n / 256, Pow(256, len - 1));
      LittleEndianRoundTrip(n / 256, len - 1);
      assert LittleEndian(n, len)[1..] == LittleEndian(n / 256, len - 1);
    }
  }

  lemma {:induction false} LittleEndianOnto(s: seq<Byte>)
    ensures FromLittleEndian(s) < Pow(256, |s|)
    ensures LittleEndian(FromLittleEndian(s), |s|) == s
    decreases |s|
  {
    if s != [] {
      LittleEndianOnto(s[1..]);
      var n := FromLittleEndian(s);
      assert n % 256 == s[0] && n / 256 == FromLittleEndian(s[1..]);
      assert s == [s[0]] + s[1..];
    }
  }

  /** Byte i holds the bits of weight 256^i: least significant first. */
  lemma {:induction false} LittleEndianBytes(n: nat, len: nat, i: nat)
    requires i < len
    ensures Pow(256, i) > 0 && LittleEndian(n, len)[i] as nat == n / Pow(256, i) % 256
    decreases len
  {
    PowPositive(256, i);
    if i == 0 {
      PowZero(256);
    } else {
      LittleEndianBytes(n / 256, len - 1, i - 1);
      PowStep(256, i);
      DivideTwice(n, 256, Pow(256, i - 1));
      assert LittleEndian(n, len)[i] == LittleEndian(n / 256, len - 1)[i - 1];
    }
  }

  lemma DivideTwice(n: nat, a: nat, b: nat)
    requires a > 0 && b > 0
    ensures a * b > 0 && n / (a * b) == n / a / b
  {
    MulMonotone(1, 1, a, b);
    DivisionBounds(n, a);
    DivisionBounds(n / a, b);
    var x, r := n / a, n % a;
    var q, t := x / b, x % b;
    MulMonotone(t + 1, a, b, a);
    TwoRests(a, b, q, t, r);
    DivisionIs(n, a * b, q, t * a + r);
  }

  lemma TwoRests(a: nat, b: nat, q: nat, t: nat, r: nat)
    requires (t + 1) * a <= b * a && r < a
    ensures (q * b + t) * a + r == q * (a * b) + (t * a + r) && 0 <= t * a + r < a * b
  {
    assert (t + 1) * a == t * a + a;
    assert b * a == a * b;
    ProductNonNegative(t, a);
  }

  lemma BytePowers()
    ensures Pow(256, 1) == 0x100 && Pow(256, 2) == 0x1_0000 && Pow(256, 4) == 0x1_0000_0000
    ensures Pow(256, 8) == 0x1_0000_0000_0000_0000
  {
    PowAdd(256, 4, 4);
  }

  // ---------- CompactSize ----------

  const MAX_SIZE := 0x0200_0000

  function CompactLength(n: nat): nat {
    if n < 253 then 0 else if n <= 0xffff then 2 else if n <= 0xffff_ffff then 4 else 8
  }

  function CompactMarker(n: nat): Byte {
    if n < 253 then n else if n <= 0xffff then 253 else if n <= 0xffff_ffff then 254 else 255
  }

  ghost function CompactBytes(n: nat): (s: seq<Byte>)
    ensures |s| == 1 + CompactLength(n)
  {
    [CompactMarker(n)] + LittleEndian(n, CompactLength(n))
  }

  /** The four widths, written out. */
  lemma CompactFormat(n: nat)
    ensures n < 253 ==> CompactBytes(n) == [n]
    ensures 253 <= n < 0x1_0000 ==> |CompactBytes(n)| == 3 && CompactBytes(n)[0] == 0xfd
    ensures 0x1_0000 <= n < 0x1_0000_0000 ==> |CompactBytes(n)| == 5 && CompactBytes(n)[0] == 0xfe
    ensures 0x1_0000_0000 <= n ==> |CompactBytes(n)| == 9 && CompactBytes(n)[0] == 0xff
    ensures forall i :: 1 <= i < |CompactBytes(n)| ==>
              Pow(256, i - 1) > 0 && CompactBytes(n)[i] as nat == n / Pow(256, i - 1) % 256
  {
    hide Pow, LittleEndian;
    NoBytes(n);
    var k := CompactLength(n);
    forall i | 1 <= i < |CompactBytes(n)|
      ensures Pow(256, i - 1) > 0 && CompactBytes(n)[i] as nat == n / Pow(256, i - 1) % 256
    {
      LittleEndianBytes(n, k, i - 1);
    }
  }

  /** How many bytes follow a marker, and the least value it may carry. */
  function Following(marker: Byte): nat {
    if marker < 253 then 0 else if marker == 253 then 2 else if marker == 254 then 4 else 8
  }

  function Least(marker: Byte): nat {
    if marker < 253 then 0 else if marker == 253 then 253 else if marker == 254 then 0x1_0000 else 0x1_0000_0000
  }

  ghost function ReadCompact(s: seq<Byte>, rangeCheck: bool): Parsed<nat> {
    if s == [] || |s| < 1 + Following(s[0]) then Fail
    else
      var k := Following(s[0]);
      var n := if s[0] < 253 then s[0] as nat else FromLittleEndian(s[1..1 + k]);
      if n < Least(s[0]) then Fail
      else if rangeCheck && n > MAX_SIZE then Fail
      else Ok(n, s[1 + k..])
  }

  /** Every 64-bit value is read back; with the range check exactly those up to MAX_SIZE. */
  lemma CompactRoundTrip(n: nat, rest: seq<Byte>, rangeCheck: bool)
    requires n <= 0xffff_ffff_ffff_ffff
    ensures ReadCompact(CompactBytes(n) + rest, rangeCheck) ==
            if rangeCheck && n > 0x200_0000 then Fail else Ok(n, rest)
  {
    hide Pow, LittleEndian, FromLittleEndian;
    var s, k := CompactBytes(n) + rest, CompactLength(n);
    BytePowers();
    assert s[0] == CompactMarker(n) && Following(s[0]) == k;
    assert s[1..1 + k] == LittleEndian(n, k) && s[1 + k..] == rest;
    if n >= 253 { LittleEndianRoundTrip(n, k); }
  }

  /** Canonical the other way: what is accepted is exactly the writer's output. */
  lemma CompactOneToOne(s: seq<Byte>, rangeCheck: bool)
    requires ReadCompact(s, rangeCheck).Ok?
    ensures var r := ReadCompact(s, rangeCheck);
            && s == CompactBytes(r.value) + r.rest && r.value <= 0xffff_ffff_ffff_ffff
            && (rangeCheck ==> r.value <= MAX_SIZE)
  {
    hide Pow, LittleEndian, FromLittleEndian;
    var k := Following(s[0]);
    BytePowers();
    LittleEndianOnto(s[1..1 + k]);
    assert s == [s[0]] + s[1..1 + k] + s[1 + k..];
    NoBytes(s[0]);
  }

  lemma NoBytes(n: nat)
    ensures LittleEndian(n, 0) == []
  {
  }
}
