/** Base58 and Base58Check of src/btclibs/base58.cpp. */
module Base58 {
  import opened Basics
  import opened Power
  import opened Numerals

  const INT_MAX := 0x7fff_ffff

  /** All alphanumeric characters except '0', 'I', 'O' and 'l', as the runs the lookup table has. */
  const ALPHABET := "123456789" + "ABCDEFGH" + "JKLMN" + "PQRSTUVWXYZ" + "abcdefghijk" + "mnopqrstuvwxyz"

  /** mapBase58: the digit of a character, or -1. */
  function MapBase58(c: char): int {
    if '1' <= c <= '9' then c as int - '1' as int
    else if 'A' <= c <= 'H' then c as int - 'A' as int + 9
    else if 'J' <= c <= 'N' then c as int - 'J' as int + 17
    else if 'P' <= c <= 'Z' then c as int - 'P' as int + 22
    else if 'a' <= c <= 'k' then c as int - 'a' as int + 33
    else if 'm' <= c <= 'z' then c as int - 'm' as int + 44
    else -1
  }

  predicate IsSpace(c: char) {
    c == ' ' || c == '\U{000C}' || c == '\n' || c == '\r' || c == '\t' || c == '\U{000B}'
  }

  function CharAt(i: nat): char
    requires i < 58
  {
    if i < 9 then ('1' as int + i) as char
    else if i < 17 then ('A' as int + (i - 9)) as char
    else if i < 22 then ('J' as int + (i - 17)) as char
    else if i < 33 then ('P' as int + (i - 22)) as char
    else if i < 44 then ('a' as int + (i - 33)) as char
    else ('m' as int + (i - 44)) as char
  }

  lemma AlphabetAt(i: nat)
    requires i < 58
    ensures |ALPHABET| == 58 && ALPHABET[i] == CharAt(i)
  {
    if i < 9 { assert "123456789"[i] == CharAt(i); }
    else if i < 17 { assert "ABCDEFGH"[i - 9] == CharAt(i); }
    else if i < 22 { assert "JKLMN"[i - 17] == CharAt(i); }
    else if i < 33 { assert "PQRSTUVWXYZ"[i - 22] == CharAt(i); }
    else if i < 44 { assert "abcdefghijk"[i - 33] == CharAt(i); }
    else { assert "mnopqrstuvwxyz"[i - 44] == CharAt(i); }
  }

  /** The table and the alphabet are inverse to each other. */
  lemma TableInvertsAlphabet(i: nat)
    requires i < 58
    ensures |ALPHABET| == 58 && MapBase58(ALPHABET[i]) == i
  {
    AlphabetAt(i);
    TableAt(i);
  }

  lemma TableAt(i: nat)
    requires i < 58
    ensures MapBase58(CharAt(i)) == i
  {
  }

  lemma AlphabetInvertsTable(c: char)
    requires MapBase58(c) != -1
    ensures 0 <= MapBase58(c) < 58 && |ALPHABET| == 58 && ALPHABET[MapBase58(c)] == c && !IsSpace(c)
  {
    TableInvertsAlphabet(MapBase58(c));
    SameDigit(ALPHABET[MapBase58(c)], c);
  }

  lemma SameDigit(c: char, d: char)
    requires MapBase58(c) == MapBase58(d) != -1
    ensures c == d
  {
  }

  // ---------- what the two conversions mean ----------

  function CountLeading<T(==)>(s: seq<T>, x: T): (n: nat)
    ensures n <= |s| && (forall i :: 0 <= i < n ==> s[i] == x) && (n < |s| ==> s[n] != x)
  {
    if s != [] && s[0] == x then 1 + CountLeading(s[1..], x) else 0
  }

  lemma CountLeadingIs<T>(s: seq<T>, x: T, n: nat)
    requires n <= |s| && (forall i :: 0 <= i < n ==> s[i] == x) && (n < |s| ==> s[n] != x)
    ensures CountLeading(s, x) == n
  {
  }

  ghost predicate InAlphabet(s: string) {
    forall i :: 0 <= i < |s| ==> MapBase58(s[i]) != -1
  }

  ghost function Chars(digits: seq<nat>): (s: string)
    requires Digits(digits, 58)
    ensures |s| == |digits| && InAlphabet(s)
    ensures forall i :: 0 <= i < |s| ==> MapBase58(s[i]) == digits[i]
  {
    assert |ALPHABET| == 58 by { TableInvertsAlphabet(0); }
    var s := seq(|digits|, i requires 0 <= i < |digits| => ALPHABET[digits[i]]);
    assert forall i :: 0 <= i < |s| ==> MapBase58(s[i]) == digits[i] by {
      forall i | 0 <= i < |s| ensures MapBase58(s[i]) == digits[i] { TableInvertsAlphabet(digits[i]); }
    }
    s
  }

  ghost function Indices(s: string): (digits: seq<nat>)
    requires InAlphabet(s)
    ensures |digits| == |s| && Digits(digits, 58)
    ensures forall i :: 0 <= i < |s| ==> digits[i] == MapBase58(s[i])
  {
    seq(|s|, i requires 0 <= i < |s| => MapBase58(s[i]))
  }

  ghost function Repeat<T>(x: T, n: nat): (s: seq<T>)
    ensures |s| == n && forall i :: 0 <= i < n ==> s[i] == x
  {
    seq(n, _ => x)
  }

  /** Leading zero bytes as '1's, then the rest of the bytes as one number in base 58. */
  ghost function Encoded(bytes: seq<Byte>): string {
    var z := CountLeading(bytes, 0);
    Repeat('1', z) + Chars(ToDigits(Value(bytes[z..], 256), 58))
  }

  /** Leading '1's as zero bytes, then the rest of the characters as one number in base 256. */
  ghost function Decoded(body: string): seq<Byte>
    requires InAlphabet(body)
  {
    var z := CountLeading(body, '1');
    var digits := ToDigits(Value(Indices(body[z..]), 58), 256);
    Repeat<Byte>(0, z) + seq(|digits|, i requires 0 <= i < |digits| => digits[i])
  }

  /** What the text means: the same number in base 58, with as many leading ones as the bytes have leading zeros. */
  lemma EncodedMeans(bytes: seq<Byte>)
    ensures var text := Encoded(bytes);
            && InAlphabet(text) && Value(Indices(text), 58) == Value(bytes, 256)
            && CountLeading(text, '1') == CountLeading(bytes, 0)
  {
    hide ToDigits, Value, CountLeading, Indices, Encoded, MapBase58;
    var z := CountLeading(bytes, 0);
    var all: seq<nat>, rest: seq<nat> := bytes, bytes[z..];
    var digits := ToDigits(Value(rest, 256), 58);
    EncodedParts(bytes);
    LeadingZeros(z, rest, 256);
    LeadingZeros(z, digits, 58);
    assert all == seq(z, _ => 0) + rest;
  }

  lemma EncodedParts(bytes: seq<Byte>)
    ensures var z, text := CountLeading(bytes, 0), Encoded(bytes);
            && InAlphabet(text) && CountLeading(text, '1') == z
            && Indices(text) == seq(z, _ => 0) + ToDigits(Value(bytes[z..], 256), 58)
  {
    hide ToDigits, Value, CountLeading, MapBase58, InAlphabet, Indices, Chars;
    var z := CountLeading(bytes, 0);
    var digits, text := ToDigits(Value(bytes[z..], 256), 58), Encoded(bytes);
    JoinedBody(z, digits, text);
    JoinedIndices(z, digits, text);
  }

  lemma JoinedIndices(z: nat, digits: seq<nat>, text: string)
    requires Digits(digits, 58) && InAlphabet(text) && text == Repeat('1', z) + Chars(digits)
    ensures Indices(text) == seq(z, _ => 0) + digits
  {
    hide MapBase58, InAlphabet, Indices, Chars;
    var ones, rest := Repeat('1', z), Chars(digits);
    OneIsZero();
    forall i | 0 <= i < z ensures Indices(text)[i] == 0 { assert text[i] == ones[i]; }
    forall i | 0 <= i < |digits| ensures Indices(text)[z + i] == digits[i] { assert text[z + i] == rest[i]; }
    ZerosThen(Indices(text), z, digits);
  }

  lemma ZerosThen(s: seq<nat>, z: nat, rest: seq<nat>)
    requires |s| == z + |rest| && forall i :: 0 <= i < z ==> s[i] == 0
    requires forall i :: 0 <= i < |rest| ==> s[z + i] == rest[i]
    ensures s == seq(z, _ => 0) + rest
  {
    forall i | 0 <= i < |s| ensures s[i] == (seq(z, _ => 0) + rest)[i] {
      if i >= z { assert s[z + (i - z)] == rest[i - z]; }
    }
  }

  lemma OneIsZero()
    ensures MapBase58('1') == 0
  {
  }

  /** Decoding undoes encoding, leading zeros included. */
  lemma DecodedEncoded(bytes: seq<Byte>)
    ensures InAlphabet(Encoded(bytes)) && Decoded(Encoded(bytes)) == bytes
  {
    hide ToDigits, Value, CountLeading;
    var z := CountLeading(bytes, 0);
    var rest: seq<nat> := bytes[z..];
    var digits := ToDigits(Value(rest, 256), 58);
    var body := Encoded(bytes);
    JoinedBody(z, digits, body);
    assert Canonical(rest, 256);
    CanonicalRoundTrip(rest, 256);
    assert bytes == Repeat<Byte>(0, z) + rest;
  }

  lemma JoinedBody(z: nat, digits: seq<nat>, body: string)
    requires Canonical(digits, 58) && body == Repeat('1', z) + Chars(digits)
    ensures InAlphabet(body) && CountLeading(body, '1') == z && Indices(body[z..]) == digits
  {
    hide CountLeading;
    assert body[z..] == Chars(digits);
    assert digits != [] ==> MapBase58(body[z]) == digits[0];
    CountLeadingIs(body, '1', z);
  }

  /** Encoding undoes decoding: every alphabet string is the encoding of exactly one byte string. */
  lemma EncodedDecoded(body: string)
    requires InAlphabet(body)
    ensures Encoded(Decoded(body)) == body
  {
    hide ToDigits, Value, CountLeading;
    var z := CountLeading(body, '1');
    var chars := body[z..];
    var rest := Indices(chars);
    var bytes := Decoded(body);
    var digits := ToDigits(Value(rest, 58), 256);
    assert bytes[z..] == digits;
    assert digits != [] ==> bytes[z] == digits[0];
    CountLeadingIs(bytes, 0, z);
    assert rest != [] ==> rest[0] == MapBase58(body[z]) && body[z] != '1';
    assert rest != [] ==> rest[0] > 0 by { OnlyOneIsZero(body, z); }
    CanonicalRoundTrip(rest, 58);
    SameChars(Chars(rest), chars);
    assert body == Repeat('1', z) + chars;
  }

  lemma OnlyOneIsZero(body: string, z: nat)
    requires InAlphabet(body)
    ensures z < |body| && body[z] != '1' ==> MapBase58(body[z]) > 0
  {
  }

  lemma SameChars(s: string, t: string)
    requires InAlphabet(s) && InAlphabet(t) && |s| == |t|
    requires forall i :: 0 <= i < |s| ==> MapBase58(s[i]) == MapBase58(t[i])
    ensures s == t
  {
    forall i | 0 <= i < |s| ensures s[i] == t[i] { SameDigit(s[i], t[i]); }
  }

  function CountSpaces(s: string): (n: nat)
    ensures n <= |s| && (forall i :: 0 <= i < n ==> IsSpace(s[i])) && (n < |s| ==> !IsSpace(s[n]))
  {
    if s != [] && IsSpace(s[0]) then 1 + CountSpaces(s[1..]) else 0
  }

  function CountNonSpaces(s: string): (n: nat)
    ensures n <= |s| && (forall i :: 0 <= i < n ==> !IsSpace(s[i])) && (n < |s| ==> IsSpace(s[n]))
  {
    if s != [] && !IsSpace(s[0]) then 1 + CountNonSpaces(s[1..]) else 0
  }

  /** The first run of non-space characters. */
  function Body(s: string): string {
    var a := CountSpaces(s);
    s[a..a + CountNonSpaces(s[a..])]
  }

  ghost predicate SpacesFrom(s: string, k: nat) {
    forall i :: k <= i < |s| ==> IsSpace(s[i])
  }

  /** After that run there is nothing but spaces. */
  ghost predicate EndsInSpaces(s: string) {
    SpacesFrom(s, CountSpaces(s) + CountNonSpaces(s[CountSpaces(s)..]))
  }

  /** What DecodeBase58 accepts and returns: surrounding spaces are dropped, the length limit applies to the bytes. */
  ghost function DecodedText(s: string, maxLen: int): Option<seq<Byte>> {
    if !EndsInSpaces(s) || !InAlphabet(Body(s)) then None
    else
      var bytes := Decoded(Body(s));
      if |bytes| > 0 && |bytes| > maxLen then None else Some(bytes)
  }

  lemma SpaceFree(s: string)
    requires InAlphabet(s)
    ensures Body(s) == s && EndsInSpaces(s)
  {
    forall i | 0 <= i < |s| ensures !IsSpace(s[i]) { AlphabetInvertsTable(s[i]); }
    assert CountSpaces(s) == 0;
    assert s[0..] == s;
    assert CountNonSpaces(s) == |s|;
  }

  /** decode(encode(b)) = b for every byte string within the length limit, and only for those. */
  lemma TextRoundTrip(bytes: seq<Byte>, maxLen: int)
    ensures DecodedText(Encoded(bytes), maxLen) ==
            if |bytes| > 0 && |bytes| > maxLen then None else Some(bytes)
  {
    DecodedEncoded(bytes);
    SpaceFree(Encoded(bytes));
  }

  /** encode(decode(s)) is s without its surrounding spaces, for every accepted s. */
  lemma TextRoundTripBack(s: string, maxLen: int)
    requires DecodedText(s, maxLen).Some?
    ensures Encoded(DecodedText(s, maxLen).value) == Body(s)
    ensures InAlphabet(s) ==> Encoded(DecodedText(s, maxLen).value) == s
  {
    EncodedDecoded(Body(s));
    if InAlphabet(s) { SpaceFree(s); }
  }

  // ---------- Base58Check ----------

  /** A 256-bit hash. */
  type Digest = d: seq<Byte> | |d| == 32 witness seq(32, _ => 0)

  ghost function EncodedCheck(hash: seq<Byte> -> Digest, bytes: seq<Byte>): string {
    Encoded(bytes + hash(bytes)[..4])
  }

  /** The limit passed on, saturating at the largest int. */
  function CheckLimit(maxLen: int): int {
    if maxLen > INT_MAX - 4 then INT_MAX else maxLen + 4
  }

  ghost function DecodedCheck(hash: seq<Byte> -> Digest, s: string, maxLen: int): Option<seq<Byte>> {
    var r := DecodedText(s, CheckLimit(maxLen));
    if r.None? || |r.value| < 4 then None else
      var payload, check := r.value[..|r.value| - 4], r.value[|r.value| - 4..];
      if check != hash(payload)[..4] then None else Some(payload)
  }

  /** The encoded bytes are the payload and the first four bytes of its hash, in that order. */
  lemma CheckCarries(hash: seq<Byte> -> Digest, bytes: seq<Byte>)
    ensures var h, text := hash(bytes), EncodedCheck(hash, bytes);
            InAlphabet(text) && Decoded(text) == bytes + [h[0], h[1], h[2], h[3]]
  {
    hide Decoded, Encoded;
    var h := hash(bytes);
    assert h[..4] == [h[0], h[1], h[2], h[3]];
    DecodedEncoded(bytes + h[..4]);
  }

  /**
   * The Check round trip, for any hash function: exactly the payloads within the limit come back. Near the largest int
   * the limit counts the four check bytes too.
   */
  lemma CheckRoundTrip(hash: seq<Byte> -> Digest, bytes: seq<Byte>, maxLen: int)
    ensures maxLen <= INT_MAX - 4 ==>
              DecodedCheck(hash, EncodedCheck(hash, bytes), maxLen) == if |bytes| <= maxLen then Some(bytes) else None
    ensures maxLen > INT_MAX - 4 ==>
              DecodedCheck(hash, EncodedCheck(hash, bytes), maxLen) ==
              if |bytes| + 4 <= 0x7fff_ffff then Some(bytes) else None
  {
    hide DecodedText, Encoded;
    var all := bytes + hash(bytes)[..4];
    TextRoundTrip(all, CheckLimit(maxLen));
    assert all[..|all| - 4] == bytes && all[|all| - 4..] == hash(bytes)[..4];
  }

  lemma WithinLimit(s: string, maxLen: int)
    requires DecodedText(s, maxLen).Some?
    ensures |DecodedText(s, maxLen).value| == 0 || |DecodedText(s, maxLen).value| <= maxLen
  {
    hide Decoded, Body, EndsInSpaces;
  }

  /** Whatever the Check decoder accepts re-encodes to the text it read, so its last four bytes were the right ones. */
  lemma CheckRoundTripBack(hash: seq<Byte> -> Digest, s: string, maxLen: int)
    requires DecodedCheck(hash, s, maxLen).Some?
    ensures var bytes := DecodedCheck(hash, s, maxLen).value;
            EncodedCheck(hash, bytes) == Body(s) && |bytes| <= maxLen
  {
    hide DecodedText, Encoded, Body;
    var r := DecodedText(s, CheckLimit(maxLen)).value;
    WithinLimit(s, CheckLimit(maxLen));
    TextRoundTripBack(s, CheckLimit(maxLen));
    assert r == r[..|r| - 4] + r[|r| - 4..];
  }

  // ---------- the buffers suffice ----------

  lemma NestedPowers(c: nat, y: nat, n: nat, s: nat, x: nat)
    requires c >= 1 && y * n <= s * x
    ensures Pow(Pow(c, y), n) <= Pow(Pow(c, s), x)
  {
    hide Pow;
    PowPow(c, y, n);
    PowPow(c, s, x);
    PowExponentMonotone(c, y * n, s * x);
  }

  /** If b^x <= c^y then b^n <= c^s whenever s/n is at least y/x. */
  lemma RatioBound(b: nat, x: nat, c: nat, y: nat, n: nat, s: nat)
    requires c >= 1 && x >= 1 && Pow(b, x) <= Pow(c, y) && y * n <= s * x
    ensures Pow(b, n) <= Pow(c, s)
  {
    hide Pow;
    PowMonotone(Pow(b, x), Pow(c, y), n);
    SwapExponents(b, x, n);
    NestedPowers(c, y, n, s, x);
    PowAtMostInverse(Pow(b, n), Pow(c, s), x);
  }

  lemma EncodeBufferSuffices(n: nat)
    ensures Pow(256, n) <= Pow(58, n * 138 / 100 + 1)
  {
    hide Pow;
    EightBytes();
    assert 11 * n <= (n * 138 / 100 + 1) * 8;
    RatioBound(256, 8, 58, 11, n, n * 138 / 100 + 1);
  }

  lemma EightBytes()
    ensures Pow(256, 8) <= Pow(58, 11)
  {
    assert Pow(256, 4) == 4294967296 && Pow(58, 5) == 656356768;
    hide Pow;
    PowAdd(256, 4, 4);
    PowAdd(58, 5, 5);
    PowStep(58, 11);
  }

  lemma DecodeBufferSuffices(n: nat)
    ensures Pow(58, n) <= Pow(256, n * 733 / 1000 + 1)
  {
    hide Pow;
    SeventyOne();
    assert 52 * n <= (n * 733 / 1000 + 1) * 71;
    RatioBound(58, 71, 256, 52, n, n * 733 / 1000 + 1);
  }

  lemma Powers58()
    ensures Pow(58, 10) == 430804206899405824
    ensures Pow(58, 20) == 185592264682226060569122324245118976
    ensures Pow(58, 40) == 34444488709877454747081479018851205589883534409595458615323760395288576
    ensures Pow(58, 30) == 79953928393091004080532279173738402825689466587316224
  {
    PowAdd(58, 10, 10);
    PowAdd(58, 10, 20);
    PowAdd(58, 20, 20);
  }

  lemma Powers256()
    ensures Pow(256, 13) == 20282409603651670423947251286016
    ensures Pow(256, 26) == 411376139330301510538742295639337626245683966408394965837152256
  {
    PowAdd(256, 13, 13);
  }

  lemma SeventyOne()
    ensures Pow(58, 71) <= Pow(256, 52)
  {
    Powers58();
    Powers256();
    assert Pow(58, 71) == 58 * Pow(58, 70);
    PowAdd(58, 40, 30);
    PowAdd(256, 26, 26);
  }
}
