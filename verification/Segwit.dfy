/** Segwit address encoding and decoding of src/btclibs/bech32.h. */
module Segwit {
  import opened Basics
  import opened Arithmetic
  import opened Power
  import opened Numerals
  import opened BitRegroup
  import opened Bech32Checksum

  datatype Program = Program(witver: nat, bytes: seq<nat>)

  /** The version is stored as one byte: the encoder's int is folded modulo 256. */
  function Folded(witver: int, bytes: seq<nat>): Program {
    Program(witver % 256, bytes)
  }

  const CHARSET := "qpzry9x8gf2tvdw0s3jn54khce6mua7l"

  /** CHARSET[i]; index 32 is the terminator of the C string. */
  function CharAt(i: nat): char
    requires i <= 32
  {
    assert |CHARSET| == 32;
    if i == 32 then '\0' else CHARSET[i]
  }

  /** strchr over CHARSET. It also finds the terminator, so a NUL character decodes to 32. */
  function IndexOf(c: char): (r: Option<nat>)
    ensures r.Some? ==> r.value <= 32
  {
    if c == '\0' then Some(32) else IndexFrom(c, 0)
  }

  function IndexFrom(c: char, i: nat): (r: Option<nat>)
    requires i <= 32
    ensures r.Some? ==> i <= r.value < 32 && CHARSET[r.value] == c
    ensures r.None? ==> forall k :: i <= k < 32 ==> CHARSET[k] != c
    decreases 32 - i
  {
    if i == 32 then None else if CHARSET[i] == c then Some(i) else IndexFrom(c, i + 1)
  }

  lemma CharsetLetters(i: nat)
    requires i < 32
    ensures CHARSET[i] != '\0' && CHARSET[i] != '1' && !('A' <= CHARSET[i] <= 'Z')
  {
  }

  /** The position of each letter of CHARSET. */
  ghost function Position(c: char): nat {
    match c
    case 'q' => 0
    case 'p' => 1
    case 'z' => 2
    case 'r' => 3
    case 'y' => 4
    case '9' => 5
    case 'x' => 6
    case '8' => 7
    case 'g' => 8
    case 'f' => 9
    case '2' => 10
    case 't' => 11
    case 'v' => 12
    case 'd' => 13
    case 'w' => 14
    case '0' => 15
    case 's' => 16
    case '3' => 17
    case 'j' => 18
    case 'n' => 19
    case '5' => 20
    case '4' => 21
    case 'k' => 22
    case 'h' => 23
    case 'c' => 24
    case 'e' => 25
    case '6' => 26
    case 'm' => 27
    case 'u' => 28
    case 'a' => 29
    case '7' => 30
    case 'l' => 31
    case _ => 32
  }

  lemma PositionInverts(i: nat)
    requires i < 32
    ensures Position(CHARSET[i]) == i
  {
  }

  lemma IndexOfChar(i: nat)
    requires i <= 32
    ensures IndexOf(CharAt(i)) == Some(i)
  {
    hide Position;
    if i < 32 {
      CharsetLetters(i);
      var r := IndexFrom(CHARSET[i], 0);
      assert r.Some?;
      PositionInverts(i);
      PositionInverts(r.value);
    }
  }

  lemma CharOfIndex(c: char)
    requires IndexOf(c).Some?
    ensures CharAt(IndexOf(c).value) == c && (IndexOf(c).value == 32 <==> c == '\0')
  {
  }

  // ---------- strings ----------

  ghost function Chars(data: seq<nat>): (s: string)
    requires forall i :: 0 <= i < |data| ==> data[i] <= 32
    ensures |s| == |data| && forall i :: 0 <= i < |s| ==> s[i] == CharAt(data[i])
  {
    seq(|data|, i requires 0 <= i < |data| => CharAt(data[i]))
  }

  ghost predicate AllIndexed(s: string) {
    forall i :: 0 <= i < |s| ==> IndexOf(s[i]).Some?
  }

  ghost function Indices(s: string): (data: seq<nat>)
    requires AllIndexed(s)
    ensures |data| == |s| && forall i :: 0 <= i < |s| ==> data[i] == IndexOf(s[i]).value
    ensures forall i :: 0 <= i < |data| ==> data[i] <= 32
  {
    seq(|s|, i requires 0 <= i < |s| => IndexOf(s[i]).value)
  }

  lemma IndicesOfChars(data: seq<nat>)
    requires forall i :: 0 <= i < |data| ==> data[i] <= 32
    ensures AllIndexed(Chars(data)) && Indices(Chars(data)) == data
  {
    hide IndexOf, CharAt;
    forall i | 0 <= i < |data| ensures IndexOf(Chars(data)[i]) == Some(data[i]) { IndexOfChar(data[i]); }
  }

  lemma CharsOfIndices(s: string)
    requires AllIndexed(s)
    ensures Chars(Indices(s)) == s
  {
    hide IndexOf, CharAt;
    forall i | 0 <= i < |s| ensures Chars(Indices(s))[i] == s[i] { CharOfIndex(s[i]); }
  }

  function LowerChar(c: char): char {
    if 'A' <= c <= 'Z' then (c as int - 'A' as int + 'a' as int) as char else c
  }

  ghost function Lower(s: string): (r: string)
    ensures |r| == |s| && forall i :: 0 <= i < |s| ==> r[i] == LowerChar(s[i])
  {
    seq(|s|, i requires 0 <= i < |s| => LowerChar(s[i]))
  }

  ghost predicate NoUpper(s: string) {
    forall i :: 0 <= i < |s| ==> !('A' <= s[i] <= 'Z')
  }

  /** The twenty-six capitals, 65 to 90, move up by 32 to the small letters; nothing else changes. */
  lemma LowerLetters(c: char)
    ensures 65 <= c as nat < 91 ==> LowerChar(c) as nat == c as nat + 32
    ensures !(65 <= c as nat < 91) ==> LowerChar(c) == c
  {
  }

  function UpperChar(c: char): char {
    if 97 <= c as nat < 123 then (c as nat - 32) as char else c
  }

  /** The same text in capitals. */
  ghost function Upper(s: string): (r: string)
    ensures |r| == |s| && forall i :: 0 <= i < |s| ==> r[i] == UpperChar(s[i])
  {
    seq(|s|, i requires 0 <= i < |s| => UpperChar(s[i]))
  }

  lemma LowerUpper(s: string)
    ensures Lower(Upper(s)) == Lower(s)
    ensures forall i :: 0 <= i < |s| ==> !('a' <= Upper(s)[i] <= 'z')
  {
    forall i | 0 <= i < |s| ensures LowerChar(UpperChar(s[i])) == LowerChar(s[i]) { }
  }

  /** sep is the last occurrence of the separator. */
  ghost predicate IsLastOne(s: string, sep: nat) {
    sep < |s| && s[sep] == '1' && forall i :: sep < i < |s| ==> s[i] != '1'
  }

  function HrpExpand(hrp: string): (v: seq<nat>)
    ensures |v| == 2 * |hrp| + 1
  {
    seq(|hrp|, i requires 0 <= i < |hrp| => hrp[i] as nat % 256 / 32) + [0] +
    seq(|hrp|, i requires 0 <= i < |hrp| => hrp[i] as nat % 32)
  }

  /** The expansion holds the high three and the low five bits of every byte of the prefix, a zero between them. */
  lemma HrpSymbols(hrp: string, i: nat)
    requires i < |hrp|
    ensures var v := HrpExpand(hrp);
            && v[|hrp|] == 0 && v[i] < 8 && v[|hrp| + 1 + i] < 32
            && 32 * v[i] + v[|hrp| + 1 + i] == hrp[i] as nat % 256
  {
    HighAndLow(hrp[i] as nat);
  }

  lemma HighAndLow(n: nat)
    ensures n % 256 / 32 < 8 && n % 32 < 32 && 32 * (n % 256 / 32) + n % 32 == n % 256
  {
    var q, r := n / 256, n % 256;
    DivisionIs(n, 32, 8 * q + r / 32, r % 32);
  }

  /** Different byte prefixes have different expansions. */
  lemma HrpExpandInjective(a: string, b: string)
    requires forall i :: 0 <= i < |a| ==> a[i] as nat < 256
    requires forall i :: 0 <= i < |b| ==> b[i] as nat < 256
    requires HrpExpand(a) == HrpExpand(b)
    ensures a == b
  {
    assert |HrpExpand(a)| == |HrpExpand(b)|;
    hide HrpExpand;
    forall i | 0 <= i < |a| ensures a[i] == b[i] {
      HrpSymbols(a, i);
      HrpSymbols(b, i);
      assert a[i] as nat == b[i] as nat;
    }
  }

  // ---------- what the two operations mean ----------

  ghost function Groups(prog: seq<nat>): (g: seq<nat>)
    requires Digits(prog, 256)
    ensures FiveBit(g)
  {
    ByteBases();
    PadThenStrict(prog, 8, 5);
    Regrouped(prog, 8, 5, true).value
  }

  lemma ByteBases()
    ensures Pow(2, 8) == 256 && Pow(2, 5) == 32
  {
  }

  /** The address of the given data symbols whose checksum brings the register to `target`. */
  ghost function Address(hrp: string, data: seq<nat>, target: bv32): string
    requires forall i :: 0 <= i < |data| ==> data[i] <= 32
    requires Fits(target, 6)
  {
    ChecksumExactly(HrpExpand(hrp) + data, Zeros(6), target);
    hrp + "1" + Chars(data + ChecksumFor(HrpExpand(hrp) + data, target))
  }

  lemma Targets()
    ensures Fits(BECH32, 6) && Fits(BECH32M, 6) && BECH32 != BECH32M
  {
  }

  /** encode_segwit always uses the first constant. */
  ghost function Encoded(hrp: string, p: Program): string
    requires p.witver <= 32 && Digits(p.bytes, 256)
  {
    Targets();
    Address(hrp, [p.witver] + Groups(p.bytes), BECH32)
  }

  predicate Legal(p: Program) {
    p.witver <= 16 && 2 <= |p.bytes| <= 40 && (p.witver == 0 ==> |p.bytes| == 20 || |p.bytes| == 32)
  }

  /** The checks on the symbols after the separator. */
  ghost function DecodedData(hrp: string, data: seq<nat>): Option<Program> {
    var pm := Polymod(HrpExpand(hrp) + data);
    if pm != BECH32 && pm != BECH32M then None
    else if |data| < 7 then None
    else if data[0] > 16 then None
    else
      var r := Regrouped(data[1..|data| - 6], 5, 8, false);
      if r.None? then None
      else if !Legal(Program(data[0], r.value)) then None
      else Some(Program(data[0], r.value))
  }

  /** decode_segwit: the lower-cased text, split at its last '1'. */
  ghost function Decoded(hrp: string, addr: string): Option<Program> {
    var lower := Lower(addr);
    if sep: nat :| IsLastOne(lower, sep) then
      if sep < 1 || sep + 7 > |lower| || lower[..sep] != hrp || !AllIndexed(lower[sep + 1..]) then None
      else DecodedData(hrp, Indices(lower[sep + 1..]))
    else None
  }

  // ---------- round trips ----------

  lemma LastOneUnique(s: string, a: nat, b: nat)
    requires IsLastOne(s, a) && IsLastOne(s, b)
    ensures a == b
  {
  }

  lemma CharLower(i: nat)
    requires i <= 32
    ensures LowerChar(CharAt(i)) == CharAt(i) && CharAt(i) != '1'
  {
    if i < 32 { CharsetLetters(i); }
  }

  lemma LowerJoin(a: string, b: string)
    ensures Lower(a + b) == Lower(a) + Lower(b)
  {
    hide LowerChar;
  }

  lemma LowerChars(data: seq<nat>)
    requires forall i :: 0 <= i < |data| ==> data[i] <= 32
    ensures Lower(Chars(data)) == Chars(data) && '1' !in Chars(data)
  {
    hide CharAt, LowerChar;
    forall i | 0 <= i < |data| ensures LowerChar(Chars(data)[i]) == Chars(data)[i] != '1' { CharLower(data[i]); }
  }

  lemma Separated(a: string, b: string)
    requires '1' !in b
    ensures var s := a + "1" + b; IsLastOne(s, |a|) && s[..|a|] == a && s[|a| + 1..] == b
  {
  }

  /** An address in capitals is read like the same address in small letters. */
  lemma CapitalsDecode(hrp: string, addr: string)
    ensures Decoded(hrp, Upper(addr)) == Decoded(hrp, addr)
  {
    hide DecodedData, IndexOf, Lower, Upper;
    LowerUpper(addr);
  }

  /** The lower-cased address splits at the separator that the encoder wrote. */
  lemma SplitAddress(hrp: string, data: seq<nat>, addr: string)
    requires forall i :: 0 <= i < |data| ==> data[i] <= 32
    requires addr == hrp + "1" + Chars(data)
    ensures var lower := Lower(addr);
            && IsLastOne(lower, |hrp|) && lower[..|hrp|] == Lower(hrp) && lower[|hrp| + 1..] == Chars(data)
            && |lower| == |hrp| + 1 + |data|
  {
    hide CharAt, LowerChar, Lower;
    LowerJoin(hrp + "1", Chars(data));
    LowerJoin(hrp, "1");
    LowerOne();
    LowerChars(data);
    Separated(Lower(hrp), Chars(data));
  }

  lemma LowerOne()
    ensures Lower("1") == "1"
  {
  }

  lemma LowerFixed(hrp: string)
    ensures Lower(hrp) == hrp <==> NoUpper(hrp)
  {
    if Lower(hrp) == hrp {
      forall i | 0 <= i < |hrp| ensures !('A' <= hrp[i] <= 'Z') { assert Lower(hrp)[i] == LowerChar(hrp[i]); }
    }
  }

  /** Decoding any hrp + '1' + symbols comes down to the checks on the symbols. */
  lemma DecodeAddress(hrp: string, data: seq<nat>, addr: string)
    requires forall i :: 0 <= i < |data| ==> data[i] <= 32
    requires addr == hrp + "1" + Chars(data) && |data| >= 6
    ensures Decoded(hrp, addr) == if hrp == [] || !NoUpper(hrp) then None else DecodedData(hrp, data)
  {
    hide CharAt, IndexOf, DecodedData, Lower;
    SplitAddress(hrp, data, addr);
    IndicesOfChars(data);
    LowerFixed(hrp);
    var lower := Lower(addr);
    forall sep: nat | IsLastOne(lower, sep) ensures sep == |hrp| { LastOneUnique(lower, sep, |hrp|); }
  }

  /** The symbols of an address built with either checksum constant decode to the program they were built from. */
  lemma DataRoundTrip(hrp: string, p: Program, target: bv32)
    requires p.witver <= 32 && Digits(p.bytes, 256) && (target == BECH32 || target == BECH32M)
    ensures Fits(target, 6)
    ensures var data := [p.witver] + Groups(p.bytes);
            var all := data + ChecksumFor(HrpExpand(hrp) + data, target);
            DecodedData(hrp, all) == if Legal(p) then Some(p) else None
  {
    hide Polymod, ChecksumFor, Fits, Groups, Regrouped, Pow;
    Targets();
    ByteBases();
    var data := [p.witver] + Groups(p.bytes);
    var v := HrpExpand(hrp) + data;
    ChecksumExactly(v, Zeros(6), target);
    var sum := ChecksumFor(v, target);
    ChecksumExactly(v, sum, target);
    assert HrpExpand(hrp) + (data + sum) == v + sum;
    assert (data + sum)[1..|data + sum| - 6] == Groups(p.bytes);
    GroupsBack(p.bytes);
  }

  lemma GroupsBack(bytes: seq<nat>)
    requires Digits(bytes, 256)
    ensures Regrouped(Groups(bytes), 5, 8, false) == Some(bytes)
  {
    hide Pow, Regrouped;
    ByteBases();
    PadThenStrict(bytes, 8, 5);
  }

  /** Decoding either kind of address. */
  lemma AddressRoundTrip(hrp: string, p: Program, target: bv32)
    requires p.witver <= 32 && Digits(p.bytes, 256) && (target == BECH32 || target == BECH32M)
    ensures Fits(target, 6)
    ensures Decoded(hrp, Address(hrp, [p.witver] + Groups(p.bytes), target)) ==
            if hrp != [] && NoUpper(hrp) && Legal(p) then Some(p) else None
  {
    hide Decoded, DecodedData, ChecksumFor, Groups, CharAt, Fits;
    DataRoundTrip(hrp, p, target);
    var data := [p.witver] + Groups(p.bytes);
    ChecksumExactly(HrpExpand(hrp) + data, Zeros(6), target);
    DecodeAddress(hrp, data + ChecksumFor(HrpExpand(hrp) + data, target), Address(hrp, data, target));
  }

  /**
   * decode(encode(p)) = p, with the version folded to a byte, exactly for non-empty prefixes without capitals and
   * legal programs; everything else that can be encoded is refused by the decoder.
   */
  lemma RoundTrip(hrp: string, witver: int, bytes: seq<nat>)
    requires witver % 256 <= 32 && Digits(bytes, 256)
    ensures var p := Folded(witver, bytes);
            Decoded(hrp, Encoded(hrp, p)) == if hrp != [] && NoUpper(hrp) && Legal(p) then Some(p) else None
    ensures Decoded(hrp, Encoded(hrp, Folded(witver, bytes))).Some? ==>
              (Decoded(hrp, Encoded(hrp, Folded(witver, bytes))).value.witver == witver <==> 0 <= witver <= 16)
  {
    hide Decoded, Address, Groups, Fits;
    AddressRoundTrip(hrp, Folded(witver, bytes), BECH32);
  }

  lemma AcceptedText(hrp: string, addr: string)
    requires Decoded(hrp, addr).Some?
    ensures var lower := Lower(addr);
            && hrp != [] && |hrp| + 7 <= |lower| && IsLastOne(lower, |hrp|) && lower[..|hrp|] == hrp
            && AllIndexed(lower[|hrp| + 1..])
            && Decoded(hrp, addr) == DecodedData(hrp, Indices(lower[|hrp| + 1..]))
  {
    hide IndexOf, DecodedData, Lower;
  }

  /** The symbols of an accepted address. */
  ghost function DataOf(hrp: string, addr: string): (data: seq<nat>)
    requires Decoded(hrp, addr).Some?
    ensures forall i :: 0 <= i < |data| ==> data[i] <= 32
  {
    hide IndexOf, DecodedData, Lower;
    AcceptedText(hrp, addr);
    Indices(Lower(addr)[|hrp| + 1..])
  }

  lemma DataOfText(hrp: string, addr: string)
    requires Decoded(hrp, addr).Some?
    ensures Lower(addr) == hrp + "1" + Chars(DataOf(hrp, addr))
    ensures Decoded(hrp, addr) == DecodedData(hrp, DataOf(hrp, addr))
  {
    hide IndexOf, DecodedData, Lower, CharAt;
    AcceptedText(hrp, addr);
    var lower := Lower(addr);
    CharsOfIndices(lower[|hrp| + 1..]);
    Rejoin(lower, hrp);
  }

  lemma Rejoin(lower: string, hrp: string)
    requires |hrp| < |lower| && lower[..|hrp|] == hrp && lower[|hrp|] == '1'
    ensures lower == hrp + "1" + lower[|hrp| + 1..]
  {
  }

  /**
   * What is accepted, in both directions: the version, at most 16, the groups of a program of 2 to 40 bytes, 20 or 32
   * for version 0, and six symbols more that bring the register to one of the two constants.
   */
  lemma AcceptedExactly(hrp: string, data: seq<nat>, p: Program)
    ensures DecodedData(hrp, data) == Some(p) <==>
            && |data| >= 7 && Digits(p.bytes, 256) && p.witver <= 16 && 2 <= |p.bytes| <= 40
            && (p.witver == 0 ==> |p.bytes| == 20 || |p.bytes| == 32)
            && data[..|data| - 6] == [p.witver] + Groups(p.bytes)
            && (Polymod(HrpExpand(hrp) + data) == 1 || Polymod(HrpExpand(hrp) + data) == 0x2bc830a3)
  {
    hide Regrouped, Pow, Polymod;
    ByteBases();
    if |data| >= 7 {
      var middle := data[1..|data| - 6];
      assert data[..|data| - 6] == [data[0]] + middle;
      if Regrouped(middle, 5, 8, false).Some? { StrictThenPad(middle, 5, 8); }
      if Digits(p.bytes, 256) {
        GroupsBack(p.bytes);
        assert data[..|data| - 6] == [p.witver] + Groups(p.bytes) ==> data[0] == p.witver && middle == Groups(p.bytes);
      }
    }
  }

  /**
   * Re-encoding a decoded address gives its lower-cased text if and only if the text carries the first
   * checksum constant and no NUL among its symbols. Any other accepted text is a second spelling.
   */
  lemma RoundTripBackExactly(hrp: string, addr: string)
    requires Decoded(hrp, addr).Some?
    ensures var p := Decoded(hrp, addr).value;
            p.witver <= 32 && Digits(p.bytes, 256) &&
            (Encoded(hrp, p) == Lower(addr) <==>
               Polymod(HrpExpand(hrp) + DataOf(hrp, addr)) == BECH32 && 32 !in DataOf(hrp, addr))
  {
    hide Decoded, DecodedData, Polymod, Groups, CharAt, Fits, Lower, DataOf, Address;
    var data := DataOf(hrp, addr);
    DataOfText(hrp, addr);
    AcceptedExactly(hrp, data, DecodedData(hrp, data).value);
    BackExactly(hrp, data[..|data| - 6], data[|data| - 6..]);
    assert data == data[..|data| - 6] + data[|data| - 6..];
    SmallSymbols(Decoded(hrp, addr).value);
  }

  lemma BackExactly(hrp: string, front: seq<nat>, last: seq<nat>)
    requires forall i :: 0 <= i < |front| ==> front[i] <= 32
    requires forall i :: 0 <= i < |last| ==> last[i] <= 32
    requires |last| == 6
    ensures Fits(BECH32, 6)
    ensures Address(hrp, front, BECH32) == hrp + "1" + Chars(front + last) <==>
            Polymod(HrpExpand(hrp) + (front + last)) == BECH32 && 32 !in last
  {
    hide Polymod, ChecksumFor, CharAt, Fits, HrpExpand;
    Targets();
    var v := HrpExpand(hrp) + front;
    assert v + last == HrpExpand(hrp) + (front + last);
    ChecksumExactly(v, Zeros(6), BECH32);
    var sum := ChecksumFor(v, BECH32);
    ChecksumExactly(v, sum, BECH32);
    SameText(hrp, front + sum, front + last);
    SameEnd(front, sum, last);
    if 32 !in last {
      assert FiveBit(last);
      ChecksumExactly(v, last, BECH32);
    }
  }

  lemma SameEnd(front: seq<nat>, a: seq<nat>, b: seq<nat>)
    ensures front + a == front + b <==> a == b
  {
    assert (front + a)[|front|..] == a && (front + b)[|front|..] == b;
  }

  lemma SmallSymbols(p: Program)
    requires p.witver <= 16 && Digits(p.bytes, 256)
    ensures 32 !in [p.witver] + Groups(p.bytes)
  {
    hide Groups;
  }

  lemma SameText(hrp: string, a: seq<nat>, b: seq<nat>)
    requires forall i :: 0 <= i < |a| ==> a[i] <= 32
    requires forall i :: 0 <= i < |b| ==> b[i] <= 32
    ensures hrp + "1" + Chars(a) == hrp + "1" + Chars(b) <==> a == b
  {
    hide CharAt, IndexOf;
    var s, t := hrp + "1" + Chars(a), hrp + "1" + Chars(b);
    if s == t {
      assert s[|hrp| + 1..] == Chars(a) && t[|hrp| + 1..] == Chars(b);
      IndicesOfChars(a);
      IndicesOfChars(b);
    }
  }

  /** Every legal program has a second accepted address, built with the other constant. */
  lemma SecondSpelling(hrp: string, p: Program)
    requires hrp != [] && NoUpper(hrp) && Legal(p) && Digits(p.bytes, 256)
    ensures Fits(BECH32M, 6)
    ensures var other := Address(hrp, [p.witver] + Groups(p.bytes), 0x2bc830a3);
            other != Encoded(hrp, p) && Decoded(hrp, other) == Decoded(hrp, Encoded(hrp, p)) == Some(p)
  {
    hide Decoded, ChecksumFor, Groups, CharAt, Fits, Polymod;
    Targets();
    AddressRoundTrip(hrp, p, BECH32M);
    AddressRoundTrip(hrp, p, BECH32);
    var data := [p.witver] + Groups(p.bytes);
    var v := HrpExpand(hrp) + data;
    ChecksumExactly(v, Zeros(6), BECH32);
    ChecksumExactly(v, Zeros(6), BECH32M);
    var a, b := ChecksumFor(v, BECH32), ChecksumFor(v, BECH32M);
    ChecksumExactly(v, a, BECH32);
    ChecksumExactly(v, b, BECH32M);
    SameText(hrp, data + a, data + b);
    SameEnd(data, a, b);
  }

  function Flip(p: nat): nat {
    if p % 2 == 0 then p + 1 else p - 1
  }

  lemma FlipWord(p: nat)
    ensures Flip(p) / 2 == p / 2 && Sym(Flip(p)) == Xor(Sym(p), 1)
  {
    hide Xor, Double;
    var x := Double(Word(p / 2, 7));
    FlipLast(x, p % 2 == 1);
  }

  lemma FlipLast(x: bv32, odd: bool)
    ensures Xor(x, BitOf(!odd)) == Xor(Xor(x, BitOf(odd)), 1)
  {
    hide Xor;
    XorLaws(x, 1, 1);
    XorLaws(1, 1, 1);
    XorLaws(x, 0, 1);
  }

  lemma ThirtyTwo()
    ensures Sym(32) == 32
  {
    hide Xor, Double, BitOf, Word;
    WordOne(2);
    WordDoubled(1, 3);
    WordDoubled(2, 4);
    WordDoubled(4, 5);
    WordDoubled(8, 6);
    WordDoubled(16, 7);
    Doublings();
  }

  lemma WordOne(n: nat)
    ensures Word(1, n + 1) == Xor(Double(0), BitOf(true))
  {
    ZeroWord(n);
  }

  lemma WordDoubled(p: nat, n: nat)
    ensures Word(2 * p, n + 1) == Xor(Double(Word(p, n)), BitOf(false))
  {
    hide Xor, Double, BitOf;
    assert 2 * p / 2 == p;
  }

  lemma Doublings()
    ensures Xor(Double(0), BitOf(true)) == 1 && Xor(Double(1), BitOf(false)) == 2
    ensures Xor(Double(2), BitOf(false)) == 4 && Xor(Double(4), BitOf(false)) == 8
    ensures Xor(Double(8), BitOf(false)) == 16 && Xor(Double(16), BitOf(false)) == 32
  {
  }

  lemma CarryCancels(x: bv32)
    ensures Fits(1, 5) && Xor(x, Xor(Up(1), 32)) == x
  {
  }

  /** A NUL reaches one bit into the symbol before it: 32 after the flipped symbol is 0 after the symbol itself. */
  lemma NulCollides(before: seq<nat>, p: nat, after: seq<nat>)
    ensures Polymod(before + [Flip(p), 32] + after) == Polymod(before + [p, 0] + after)
  {
    hide Step, Sym, Xor, Up, Fits, PolymodFrom;
    PolymodJoin(1, before + [Flip(p), 32], after);
    PolymodJoin(1, before + [p, 0], after);
    PolymodJoin(1, before, [Flip(p), 32]);
    PolymodJoin(1, before, [p, 0]);
    var c := Polymod(before);
    TwoSteps(c, Flip(p), 32);
    TwoSteps(c, p, 0);
    FlipWord(p);
    ThirtyTwo();
    SymZero();
    StepSymbol(c, Sym(p));
    CarryCancels(Step(Step(c, Sym(p)), 0));
    StepLinear(Step(c, Sym(p)), 1, 32);
  }

  lemma TwoSteps(c: bv32, p: nat, q: nat)
    ensures PolymodFrom(c, [p, q]) == Step(Step(c, Sym(p)), Sym(q))
  {
    hide Step, Sym;
    assert [p, q][..1] == [p] && [p][..0] == [];
    assert PolymodFrom(c, [p]) == Step(PolymodFrom(c, []), Sym(p));
  }

  /** A change of the symbol goes straight into the next state. */
  lemma StepSymbol(c: bv32, p: bv32)
    ensures Step(c, Xor(p, 1)) == Xor(Step(c, p), 1)
  {
    hide Selected, Xor, Up, Low25, Top;
    var u, s := Up(Low25(c)), Selected(Top(c), 5);
    XorLaws(u, p, 1);
    XorSwap(Xor(u, p), 1, s);
  }

  /** Wherever a checksum symbol is zero, the symbol 32 in its place and one flipped bit before it decode alike. */
  lemma NulSymbols(hrp: string, data: seq<nat>, i: nat)
    requires DecodedData(hrp, data).Some? && |data| - 6 < i < |data| && data[i] == 0
    ensures var other := data[i - 1 := Flip(data[i - 1])][i := 32];
            other != data && DecodedData(hrp, other) == DecodedData(hrp, data)
  {
    hide Polymod, Regrouped, HrpExpand;
    var h := HrpExpand(hrp);
    var other := data[i - 1 := Flip(data[i - 1])][i := 32];
    var before, after := h + data[..i - 1], data[i + 1..];
    assert h + data == before + [data[i - 1], 0] + after;
    assert h + other == before + [Flip(data[i - 1]), 32] + after;
    NulCollides(before, data[i - 1], after);
    assert other[1..|data| - 6] == data[1..|data| - 6];
  }

  /** The symbols with a NUL at i and one flipped bit before it. */
  ghost function WithNul(data: seq<nat>, i: nat): (other: seq<nat>)
    requires 0 < i < |data| && data[i - 1] < 32 && forall k :: 0 <= k < |data| ==> data[k] <= 32
    ensures forall k :: 0 <= k < |other| ==> other[k] <= 32
  {
    data[i - 1 := Flip(data[i - 1])][i := 32]
  }

  /**
   * A third spelling: wherever an accepted address has a zero among its last five symbols, the text with a NUL in its
   * place and one flipped bit before it is another text that is accepted with the same result.
   */
  lemma NulSpelling(hrp: string, addr: string, i: nat)
    requires Decoded(hrp, addr).Some?
    requires var data := DataOf(hrp, addr); |data| >= 7 && |data| - 6 < i < |data| && data[i] == 0 && data[i - 1] < 32
    ensures var text := hrp + "1" + Chars(WithNul(DataOf(hrp, addr), i));
            text != Lower(addr) && '\0' in text && Decoded(hrp, text) == Decoded(hrp, addr)
  {
    hide Decoded, DecodedData, DataOf, Lower, Flip, Chars;
    var data := DataOf(hrp, addr);
    var other := WithNul(data, i);
    DataOfText(hrp, addr);
    NulSymbols(hrp, data, i);
    AcceptedPrefix(hrp, addr);
    DecodeAddress(hrp, other, hrp + "1" + Chars(other));
    SameText(hrp, data, other);
    NulShows(hrp, other, i);
  }

  lemma AcceptedPrefix(hrp: string, addr: string)
    requires Decoded(hrp, addr).Some?
    ensures hrp != [] && NoUpper(hrp)
  {
    hide Decoded, DecodedData, IndexOf;
    AcceptedText(hrp, addr);
    var lower := Lower(addr);
    forall i | 0 <= i < |hrp| ensures !('A' <= hrp[i] <= 'Z') {
      assert hrp[i] == lower[..|hrp|][i] == LowerChar(addr[i]);
    }
  }

  lemma NulShows(hrp: string, data: seq<nat>, i: nat)
    requires i < |data| && data[i] == 32 && forall k :: 0 <= k < |data| ==> data[k] <= 32
    ensures '\0' in hrp + "1" + Chars(data)
  {
    assert (hrp + "1" + Chars(data))[|hrp| + 1 + i] == Chars(data)[i] == '\0';
  }

  // ---------- an address with such a zero ----------

  lemma FirstSteps()
    ensures Step(0x1, 3) == 0x23 && Step(0x23, 3) == 0x463
    ensures Step(0x463, 0) == 0x8c60 && Step(0x8c60, 2) == 0x118c02
  {
  }

  lemma SecondSteps()
    ensures Step(0x118c02, 3) == 0x2318043 && Step(0x2318043, 1) == 0x3d5a5fd3
    ensures Step(0x3d5a5fd3, 0) == 0x4ec3c99 && Step(0x4ec3c99, 0) == 0x3bd71d4d
  {
  }

  lemma ThirdSteps()
    ensures Step(0x3bd71d4d, 7) == 0x87eb681 && Step(0x87eb681, 0) == 0x1177c9da
    ensures Step(0x1177c9da, 17) == 0x13bb088c && Step(0x13bb088c, 5) == 0x314975ea
  {
  }

  lemma FourthSteps()
    ensures Step(0x314975ea, 7) == 0x3e78ec29 && Step(0x3e78ec29, 10) == 0x1bd01461
    ensures Step(0x1bd01461, 29) == 0x228bf1a8 && Step(0x228bf1a8, 0) == 0x1
  {
  }

  lemma FourSteps(c: bv32, p: nat, q: nat, r: nat, s: nat)
    ensures PolymodFrom(c, [p, q, r, s]) == Step(Step(Step(Step(c, Sym(p)), Sym(q)), Sym(r)), Sym(s))
  {
    hide Step, Sym, PolymodFrom;
    PolymodJoin(c, [p, q], [r, s]);
    assert [p, q] + [r, s] == [p, q, r, s];
    TwoSteps(c, p, q);
    TwoSteps(PolymodFrom(c, [p, q]), r, s);
  }

  lemma NextWord(p: nat, n: nat, w: bv32, v: bv32)
    requires Word(p / 2, n) == w && v == Xor(Double(w), BitOf(p % 2 == 1))
    ensures Word(p, n + 1) == v
  {
    hide Xor, Double, BitOf;
  }

  lemma SmallSyms()
    ensures Sym(0) == 0 && Sym(1) == 1 && Sym(2) == 2 && Sym(3) == 3 && Sym(5) == 5
    ensures Sym(7) == 7 && Sym(10) == 10 && Sym(17) == 17 && Sym(29) == 29
  {
    hide Word;
    ZeroWord(3);
    ZeroWord(4);
    ZeroWord(5);
    ZeroWord(6);
    ZeroWord(7);
    ZeroWord(8);
    NextWord(1, 7, 0, 1);
    NextWord(1, 6, 0, 1);
    NextWord(2, 7, 1, 2);
    NextWord(3, 7, 1, 3);
    NextWord(1, 5, 0, 1);
    NextWord(2, 6, 1, 2);
    NextWord(5, 7, 2, 5);
    NextWord(3, 6, 1, 3);
    NextWord(7, 7, 3, 7);
    NextWord(1, 4, 0, 1);
    NextWord(2, 5, 1, 2);
    NextWord(5, 6, 2, 5);
    NextWord(10, 7, 5, 10);
    NextWord(1, 3, 0, 1);
    NextWord(2, 4, 1, 2);
    NextWord(4, 5, 2, 4);
    NextWord(8, 6, 4, 8);
    NextWord(17, 7, 8, 17);
    NextWord(3, 4, 1, 3);
    NextWord(7, 5, 3, 7);
    NextWord(14, 6, 7, 14);
    NextWord(29, 7, 14, 29);
  }

  const EXAMPLE: seq<nat> := [1, 0, 0, 7, 0, 17, 5, 7, 10, 29, 0]

  lemma ExamplePolymod()
    ensures Polymod([3, 3, 0, 2, 3] + EXAMPLE) == BECH32
  {
    SmallSyms();
    FirstSteps();
    SecondSteps();
    ThirdSteps();
    FourthSteps();
    hide Step, Sym, PolymodFrom;
    FourSteps(0x1, 3, 3, 0, 2);
    FourSteps(0x118c02, 3, 1, 0, 0);
    FourSteps(0x3bd71d4d, 7, 0, 17, 5);
    FourSteps(0x314975ea, 7, 10, 29, 0);
    PolymodJoin(1, [3, 3, 0, 2], [3, 1, 0, 0]);
    PolymodJoin(1, [3, 3, 0, 2, 3, 1, 0, 0], [7, 0, 17, 5]);
    PolymodJoin(1, [3, 3, 0, 2, 3, 1, 0, 0, 7, 0, 17, 5], [7, 10, 29, 0]);
    assert [3, 3, 0, 2] + [3, 1, 0, 0] == [3, 3, 0, 2, 3, 1, 0, 0];
    assert [3, 3, 0, 2, 3, 1, 0, 0] + [7, 0, 17, 5] == [3, 3, 0, 2, 3, 1, 0, 0, 7, 0, 17, 5];
    assert [3, 3, 0, 2, 3] + EXAMPLE == [3, 3, 0, 2, 3, 1, 0, 0, 7, 0, 17, 5] + [7, 10, 29, 0];
  }

  lemma ExampleBytes()
    ensures Regrouped([0, 0, 7, 0], 5, 8, false) == Some([0, 14])
  {
    ByteBases();
    assert Pow(2, 4) == 16;
    assert [0, 0, 7, 0][..3] == [0, 0, 7] && [0, 0, 7][..2] == [0, 0] && [0, 0][..1] == [0];
    assert Value([0, 0, 7, 0], 32) == 224;
    assert FixedDigits(14, 256, 2) == [0, 14];
  }

  lemma ExamplePrefix()
    ensures HrpExpand("bc") == [3, 3, 0, 2, 3]
  {
  }

  lemma ExampleData()
    ensures DecodedData("bc", EXAMPLE) == Some(Program(1, [0, 14]))
  {
    hide Polymod, Regrouped, HrpExpand;
    assert EXAMPLE[1..5] == [0, 0, 7, 0];
    ExamplePrefix();
    ExamplePolymod();
    ExampleBytes();
  }

  lemma ExampleLetters()
    ensures CharAt(0) == 'q' && CharAt(1) == 'p' && CharAt(5) == '9' && CharAt(7) == '8' && CharAt(10) == '2'
    ensures CharAt(17) == '3' && CharAt(28) == 'u' && CharAt(29) == 'a' && CharAt(32) == '\0'
  {
  }

  lemma ExampleTexts()
    ensures "bc1pqq8q3982aq" == "bc" + "1" + Chars(EXAMPLE)
    ensures "bc1pqq8q3982u\0" == "bc" + "1" + Chars(EXAMPLE[9 := 28][10 := 32])
  {
    hide CharAt;
    ExampleLetters();
    var other := EXAMPLE[9 := 28][10 := 32];
    assert other == [1, 0, 0, 7, 0, 17, 5, 7, 10, 28, 32];
    assert Chars(EXAMPLE) == "pqq8q3982aq";
    assert Chars(other) == "pqq8q3982u\0";
  }

  /** Two texts for one program: the second ends in a NUL. */
  lemma NulExample()
    ensures Decoded("bc", "bc1pqq8q3982aq") == Decoded("bc", "bc1pqq8q3982u\0") == Some(Program(1, [0, 14]))
  {
    hide Chars, DecodedData, Decoded;
    ExampleTexts();
    ExampleData();
    NulSymbols("bc", EXAMPLE, 10);
    DecodeAddress("bc", EXAMPLE, "bc1pqq8q3982aq");
    DecodeAddress("bc", EXAMPLE[9 := 28][10 := 32], "bc1pqq8q3982u\0");
  }

  // ---------- the operations ----------

  method EncodeSegwit(hrp: string, witver: int, prog: seq<nat>) returns (addr: string)
    requires witver % 256 <= 32 && Digits(prog, 256)
    ensures addr == Encoded(hrp, Folded(witver, prog))
  {
    hide CharAt, ChecksumFor, Regrouped, Pow, Fits, Polymod, HrpExpand;
    ByteBases();
    PadThenStrict(prog, 8, 5);
    var groups := ConvertBits(prog, 8, 5, true);
    if groups.None? {
      return "";
    }
    assert groups.value == Groups(prog);
    var data := [witver % 256] + groups.value;
    Targets();
    ChecksumExactly(HrpExpand(hrp) + data, Zeros(6), BECH32);
    var checksum := CreateChecksum(HrpExpand(hrp) + data);
    data := data + checksum;
    addr := hrp + "1";
    ghost var head := addr;
    for i := 0 to |data|
      invariant addr == head + Chars(data[..i])
    {
      assert Chars(data[..i + 1]) == Chars(data[..i]) + [CharAt(data[i])];
      addr := addr + [CharAt(data[i])];
    }
    assert data[..|data|] == data;
  }

  method ToLower(addr: string) returns (lower: string)
    ensures lower == Lower(addr)
  {
    lower := "";
    for i := 0 to |addr|
      invariant |lower| == i && forall k :: 0 <= k < i ==> lower[k] == LowerChar(addr[k])
    {
      lower := lower + [LowerChar(addr[i])];
    }
  }

  /** rfind. */
  method FindLast(s: string) returns (r: Option<nat>)
    ensures r.Some? ==> IsLastOne(s, r.value)
    ensures r.None? ==> forall i: nat :: !IsLastOne(s, i)
  {
    var i := |s|;
    while i > 0
      invariant 0 <= i <= |s| && forall k :: i <= k < |s| ==> s[k] != '1'
    {
      i := i - 1;
      if s[i] == '1' {
        return Some(i);
      }
    }
    return None;
  }

  method ReadSymbols(s: string) returns (r: Option<seq<nat>>)
    ensures r.Some? <==> AllIndexed(s)
    ensures r.Some? ==> r.value == Indices(s)
  {
    hide IndexOf;
    var data: seq<nat> := [];
    for i := 0 to |s|
      invariant |data| == i
      invariant forall k :: 0 <= k < i ==> IndexOf(s[k]).Some? && data[k] == IndexOf(s[k]).value
    {
      var index := IndexOf(s[i]);
      if index.None? {
        return None;
      }
      data := data + [index.value];
    }
    return Some(data);
  }

  method DecodeSegwit(hrp: string, addr: string) returns (r: Option<Program>)
    ensures r == Decoded(hrp, addr)
  {
    hide IndexOf, Regrouped, Polymod, Lower;
    var lower := ToLower(addr);
    var found := FindLast(lower);
    if found.None? {
      return None;
    }
    var sep := found.value;
    forall other: nat | IsLastOne(lower, other) ensures other == sep { LastOneUnique(lower, other, sep); }
    if sep < 1 || sep + 7 > |lower| {
      return None;
    }
    var gotHrp := lower[..sep];
    if gotHrp != hrp {
      return None;
    }
    var symbols := ReadSymbols(lower[sep + 1..]);
    if symbols.None? {
      return None;
    }
    r := CheckData(gotHrp, symbols.value);
  }

  method CheckData(hrp: string, data: seq<nat>) returns (r: Option<Program>)
    ensures r == DecodedData(hrp, data)
  {
    hide Regrouped, Polymod, HrpExpand;
    var pm := ComputePolymod(HrpExpand(hrp) + data);
    if pm != BECH32 && pm != BECH32M {
      return None;
    }
    if |data| < 7 {
      return None;
    }
    var rest := data[..|data| - 6];
    var witver := rest[0];
    if witver > 16 {
      return None;
    }
    assert rest[1..] == data[1..|data| - 6];
    var prog := ConvertBits(rest[1..], 5, 8, false);
    if prog.None? || |prog.value| < 2 || |prog.value| > 40 {
      return None;
    }
    if witver == 0 && |prog.value| != 20 && |prog.value| != 32 {
      return None;
    }
    return Some(Program(witver, prog.value));
  }
}
