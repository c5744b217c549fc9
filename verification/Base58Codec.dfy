/** The in-place Base58 conversions, proved to compute the conversions of module Base58. */
module Base58Codec {
  import opened Basics
  import opened Arithmetic
  import opened Power
  import opened Numerals
  import opened Base58

  lemma ZeroBuffer(s: seq<nat>, base: nat)
    requires base >= 2 && forall i :: 0 <= i < |s| ==> s[i] == 0
    ensures Tail(s, 0, base) && Value(s, base) == 0
  {
    ZeroPrefix(s, 0, base);
    assert s[|s|..] == [];
  }

  /** A value below base^n leaves nothing to carry out of n cells. */
  lemma NoCarry(v: nat, carry: nat, limit: nat, mult: nat, v0: nat, ch: nat, total: nat)
    requires Balance(v, carry, limit, mult, v0, ch) && total == mult * v0 + ch < limit
    ensures carry == 0 && v == total
  {
    if carry > 0 { MulMonotone(1, limit, carry, limit); }
  }

  method SkipZeroCells(buf: array<nat>, start: nat) returns (it: nat)
    requires start <= buf.Length
    ensures start <= it <= buf.Length
    ensures forall i :: start <= i < it ==> buf[i] == 0
    ensures it < buf.Length ==> buf[it] != 0
  {
    it := start;
    while it != buf.Length && buf[it] == 0
      invariant start <= it <= buf.Length
      invariant forall i :: start <= i < it ==> buf[i] == 0
    {
      it := it + 1;
    }
  }

  /** The bytes after the leading zeros, converted in a buffer of 138/100 of their number plus one cells. */
  method ConvertBytes(rest: seq<nat>) returns (digits: seq<nat>)
    requires Digits(rest, 256)
    ensures digits == ToDigits(Value(rest, 256), 58)
  {
    hide Value, Pow, ToDigits, Balance;
    var size := |rest| * 138 / 100 + 1;
    var b58 := new nat[size](_ => 0);
    ZeroBuffer(b58[..], 58);
    EmptyValue(256);
    assert rest[..0] == [];
    var length := 0;
    for j := 0 to |rest|
      invariant Tail(b58[..], length, 58)
      invariant Value(b58[..], 58) == Value(rest[..j], 256)
    {
      EncodeStepFits(rest, j, size);
      assert rest[..j + 1] == rest[..j] + [rest[j]];
      ValueAppend(rest[..j], rest[j], 256);
      ghost var before := Value(b58[..], 58);
      var carry;
      length, carry := MultiplyAdd(b58, length, 256, rest[j], 58);
      NoCarry(Value(b58[..], 58), carry, Pow(58, size), 256, before, rest[j], Value(rest[..j + 1], 256));
      assert carry == 0;
    }
    assert rest[..|rest|] == rest;
    TailValue(b58[..], length, 58);
    CanonicalRoundTrip(b58[..][size - length..], 58);
    var it := SkipZeroCells(b58, size - length);
    assert it == size - length by { assert length > 0 ==> b58[..][size - length] > 0; }
    digits := b58[it..];
  }

  method RepeatChar(c: char, n: nat) returns (str: string)
    ensures str == Repeat(c, n)
  {
    str := [];
    for i := 0 to n
      invariant str == Repeat(c, i)
    {
      str := str + [c];
    }
  }

  method Translate(digits: seq<nat>) returns (str: string)
    requires Digits(digits, 58)
    ensures str == Chars(digits)
  {
    AlphabetSize();
    str := [];
    for i := 0 to |digits|
      invariant |str| == i
      invariant forall k :: 0 <= k < i ==> str[k] == ALPHABET[digits[k]]
    {
      str := str + [ALPHABET[digits[i]]];
    }
  }

  /** EncodeBase58. The assertion carry == 0 holds for every input. */
  method EncodeBase58(input: seq<Byte>) returns (str: string)
    ensures str == Encoded(input)
  {
    hide Value, ToDigits, CountLeading;
    var zeroes := 0;
    while zeroes < |input| && input[zeroes] == 0
      invariant 0 <= zeroes <= |input| && forall i :: 0 <= i < zeroes ==> input[i] == 0
    {
      zeroes := zeroes + 1;
    }
    CountLeadingIs(input, 0, zeroes);
    var digits := ConvertBytes(input[zeroes..]);
    var ones := RepeatChar('1', zeroes);
    var chars := Translate(digits);
    str := ones + chars;
  }

  lemma AlphabetSize()
    ensures |ALPHABET| == 58
  {
    AlphabetAt(0);
  }

  lemma EncodeStepFits(rest: seq<nat>, j: nat, size: nat)
    requires j < |rest| && Digits(rest, 256) && size == |rest| * 138 / 100 + 1
    ensures Value(rest[..j + 1], 256) < Pow(58, size)
  {
    hide Pow, Value;
    ValueBound(rest[..j + 1], 256);
    PowExponentMonotone(256, j + 1, |rest|);
    EncodeBufferSuffices(|rest|);
  }

  // ---------- decoding ----------

  lemma {:induction false} PrefixValue(s: seq<nat>, k: nat, base: nat)
    requires base >= 1 && k <= |s|
    ensures Value(s[..k], base) <= Value(s, base)
    decreases |s|
  {
    if k == |s| {
      assert s[..k] == s;
    } else {
      var front := s[..|s| - 1];
      PrefixValue(front, k, base);
      assert front[..k] == s[..k];
      MulMonotone(Value(front, base), 1, Value(front, base), base);
    }
  }

  lemma {:induction false} LongerNumeral(v: nat, w: nat, base: nat)
    requires base >= 2 && v <= w
    ensures |ToDigits(v, base)| <= |ToDigits(w, base)|
    decreases w
  {
    hide ToDigits;
    EmptyDigits(base);
    if v > 0 {
      DivMonotone(v, w, base);
      OneMoreDigit(v, base);
      OneMoreDigit(w, base);
      LongerNumeral(v / base, w / base, base);
    }
  }

  lemma EmptyDigits(base: nat)
    requires base >= 2
    ensures ToDigits(0, base) == []
  {
  }

  lemma OneMoreDigit(v: nat, base: nat)
    requires base >= 2 && v > 0
    ensures v / base >= 0 && |ToDigits(v, base)| == |ToDigits(v / base, base)| + 1
  {
  }

  lemma DivMonotone(v: nat, w: nat, base: nat)
    requires base >= 2 && v <= w
    ensures v / base <= w / base && (w > 0 ==> w / base < w)
  {
    DivAtMost(v, base, v / base);
    DivAtLeast(w, base, v / base);
  }

  /** The number written by s[from..to], and its bytes. */
  ghost function Number(s: string): nat
    requires InAlphabet(s)
  {
    Value(Indices(s), 58)
  }

  lemma NumberAppend(s: string, c: char)
    requires InAlphabet(s) && MapBase58(c) != -1
    ensures InAlphabet(s + [c]) && Number(s + [c]) == 58 * Number(s) + MapBase58(c)
  {
    assert Indices(s + [c]) == Indices(s) + [MapBase58(c)];
    ValueAppend(Indices(s), MapBase58(c), 58);
  }

  lemma NumberFits(s: string, limit: nat)
    requires InAlphabet(s) && |s| <= limit
    ensures Number(s) < Pow(256, limit * 733 / 1000 + 1)
  {
    hide Pow, Value;
    ValueBound(Indices(s), 58);
    PowExponentMonotone(58, |s|, limit);
    DecodeBufferSuffices(limit);
  }

  lemma NumberPrefix(s: string, k: nat)
    requires InAlphabet(s) && k <= |s|
    ensures InAlphabet(s[..k]) && |ToDigits(Number(s[..k]), 256)| <= |ToDigits(Number(s), 256)|
  {
    assert Indices(s[..k]) == Indices(s)[..k];
    PrefixValue(Indices(s), k, 58);
    LongerNumeral(Number(s[..k]), Number(s), 256);
  }

  /** The buffer holds the number written by the characters read so far, in its last `length` cells. */
  ghost predicate Holds(buf: seq<nat>, length: nat, read: string) {
    Tail(buf, length, 256) && InAlphabet(read) && Value(buf, 256) == Number(read)
  }

  lemma EmptyNumber()
    ensures Number([]) == 0
  {
  }

  lemma HoldsNothing(buf: seq<nat>)
    requires forall i :: 0 <= i < |buf| ==> buf[i] == 0
    ensures Holds(buf, 0, [])
  {
    hide Value, Number;
    ZeroBuffer(buf, 256);
    EmptyNumber();
  }

  lemma HoldsDigits(buf: seq<nat>, length: nat, read: string)
    requires Holds(buf, length, read)
    ensures length <= |buf| && InAlphabet(read) && buf[|buf| - length..] == ToDigits(Number(read), 256)
  {
    hide Value, ToDigits;
    TailValue(buf, length, 256);
    CanonicalRoundTrip(buf[|buf| - length..], 256);
  }

  /** One character: b256 := b256 * 58 + carry. The assertion that nothing is carried out of the buffer holds. */
  method AddDigit(b256: array<nat>, length: nat, ghost read: string, c: char, digit: int, ghost limit: nat)
    returns (length': nat)
    requires Holds(b256[..], length, read) && b256.Length == limit * 733 / 1000 + 1 && |read| < limit
    requires digit == MapBase58(c) != -1
    modifies b256
    ensures Holds(b256[..], length', read + [c])
  {
    hide Value, Pow, Number, MapBase58, Balance;
    AlphabetInvertsTable(c);
    NumberAppend(read, c);
    NumberFits(read + [c], limit);
    ghost var before := Value(b256[..], 256);
    var carry;
    length', carry := MultiplyAdd(b256, length, 58, digit, 256);
    NoCarry(Value(b256[..], 256), carry, Pow(256, b256.Length), 58, before, digit, Number(read + [c]));
    assert carry == 0;
  }

  /** What the digit loop says about the run it was given: its bytes, or that it is malformed or too long. */
  ghost predicate RunOutcome(run: string, zeroes: nat, maxLen: int, r: Option<seq<nat>>) {
    match r
    case Some(digits) =>
      && InAlphabet(run) && digits == ToDigits(Number(run), 256)
      && (run != [] ==> |digits| + zeroes <= maxLen)
    case None =>
      InAlphabet(run) ==> run != [] && |ToDigits(Number(run), 256)| + zeroes > maxLen
  }

  /**
   * The digit loop over `chars`, the text from the first character that is not '1' on. It stops at a space,
   * at a character outside the alphabet, or once the bytes exceed the limit; `stop` is where it stopped.
   */
  method ConvertChars(chars: string, zeroes: nat, maxLen: int) returns (r: Option<seq<nat>>, stop: nat)
    ensures stop <= |chars| && (r.Some? ==> stop == CountNonSpaces(chars))
    ensures RunOutcome(chars[..CountNonSpaces(chars)], zeroes, maxLen, r)
  {
    hide ToDigits, CountNonSpaces, Number, MapBase58, IsSpace, Holds;
    var size := |chars| * 733 / 1000 + 1;
    var b256 := new nat[size](_ => 0);
    HoldsNothing(b256[..]);
    ghost var body := chars[..CountNonSpaces(chars)];
    assert body[..0] == [];
    var length: nat := 0;
    stop := 0;
    while stop < |chars| && !IsSpace(chars[stop])
      invariant 0 <= stop <= |body| && Holds(b256[..], length, body[..stop])
      invariant stop > 0 ==> length + zeroes <= maxLen
    {
      var carry := MapBase58(chars[stop]);
      assert stop < |body| && body[stop] == chars[stop];
      if carry == -1 {
        return None, stop;
      }
      length := AddDigit(b256, length, body[..stop], chars[stop], carry, |chars|);
      assert body[..stop + 1] == body[..stop] + [body[stop]];
      stop := stop + 1;
      if length + zeroes > maxLen {
        HoldsDigits(b256[..], length, body[..stop]);
        if InAlphabet(body) { NumberPrefix(body, stop); }
        return None, stop;
      }
    }
    assert body[..stop] == body;
    HoldsDigits(b256[..], length, body);
    r := Some(b256[size - length..]);
  }

  lemma {:induction false} NonSpacesAfter(s: string, z: nat)
    requires z <= |s| && forall i :: 0 <= i < z ==> !IsSpace(s[i])
    ensures CountNonSpaces(s) == z + CountNonSpaces(s[z..])
    decreases z
  {
    if z == 0 {
      assert s[0..] == s;
    } else {
      NonSpacesAfter(s[1..], z - 1);
      assert s[1..][z - 1..] == s[z..];
    }
  }

  /** The body of a text is its leading '1's followed by the run that the digit loop reads. */
  lemma SplitBody(text: string, z: nat)
    requires z <= |text| && (forall i :: 0 <= i < z ==> text[i] == '1')
    ensures var body, rest := text[..CountNonSpaces(text)], text[z..][..CountNonSpaces(text[z..])];
            && CountNonSpaces(text) == z + CountNonSpaces(text[z..])
            && (forall i :: 0 <= i < z ==> body[i] == '1')
            && body[z..] == rest
            && (InAlphabet(body) <==> InAlphabet(rest))
  {
    hide CountNonSpaces;
    NonSpacesAfter(text, z);
    var body, rest := text[..CountNonSpaces(text)], text[z..][..CountNonSpaces(text[z..])];
    assert body[z..] == rest;
    assert forall i :: 0 <= i < |rest| ==> rest[i] == body[z + i];
    assert forall i :: z <= i < |body| ==> body[i] == rest[i - z];
  }

  /** The bytes of a body whose leading '1's are counted by z. */
  lemma BodyBytes(body: string, z: nat)
    requires InAlphabet(body) && z <= |body| && forall i :: 0 <= i < z ==> body[i] == '1'
    requires z < |body| ==> body[z] != '1'
    ensures InAlphabet(body[z..])
    ensures Decoded(body) == Repeat<Byte>(0, z) + ToDigits(Number(body[z..]), 256)
    ensures body[z..] != [] ==> ToDigits(Number(body[z..]), 256) != []
  {
    hide CountLeading;
    CountLeadingIs(body, '1', z);
    if body[z..] != [] { NonZeroNumber(body[z..]); }
  }

  /** What the outcome of the digit loop means for the whole text. */
  lemma TextResult(s: string, z: nat, digits: Option<seq<nat>>, stop: nat, maxLen: int)
    requires CountSpaces(s) + z <= |s| && (z > 0 ==> z <= maxLen)
    requires forall i :: CountSpaces(s) <= i < CountSpaces(s) + z ==> s[i] == '1'
    requires CountSpaces(s) + z < |s| ==> s[CountSpaces(s) + z] != '1'
    requires var chars := s[CountSpaces(s) + z..];
             && stop <= |chars| && (digits.Some? ==> stop == CountNonSpaces(chars))
             && RunOutcome(chars[..CountNonSpaces(chars)], z, maxLen, digits)
    ensures digits.None? ==> DecodedText(s, maxLen) == None
    ensures digits.Some? ==> Digits(digits.value, 256)
    ensures digits.Some? && SpacesFrom(s, CountSpaces(s) + z + stop) ==>
              DecodedText(s, maxLen) == Some(Repeat<Byte>(0, z) + digits.value)
    ensures digits.Some? && !SpacesFrom(s, CountSpaces(s) + z + stop) ==> DecodedText(s, maxLen) == None
  {
    hide CountSpaces, CountNonSpaces, ToDigits, Number, Decoded, Value, SpacesFrom, InAlphabet, RunOutcome, DecodedText;
    var a := CountSpaces(s);
    var text, chars := s[a..], s[a + z..];
    assert text[z..] == chars;
    SplitBody(text, z);
    var body := text[..CountNonSpaces(text)];
    assert Body(s) == body;
    assert z < |body| ==> body[z] == s[a + z];
    BodyResult(s, body, z, digits, maxLen);
  }

  lemma BodyResult(s: string, body: string, z: nat, digits: Option<seq<nat>>, maxLen: int)
    requires body == Body(s) && z <= |body| && (z > 0 ==> z <= maxLen)
    requires (forall i :: 0 <= i < z ==> body[i] == '1') && (z < |body| ==> body[z] != '1')
    requires InAlphabet(body) <==> InAlphabet(body[z..])
    requires RunOutcome(body[z..], z, maxLen, digits)
    ensures digits.None? ==> DecodedText(s, maxLen) == None
    ensures digits.Some? ==> Digits(digits.value, 256)
    ensures digits.Some? ==>
              DecodedText(s, maxLen) == if EndsInSpaces(s) then Some(Repeat<Byte>(0, z) + digits.value) else None
  {
    hide Body, EndsInSpaces, ToDigits, Number, Decoded, Value;
    if InAlphabet(body) {
      BodyBytes(body, z);
      BytesResult(body, z, digits, maxLen);
    }
  }

  /** The length limit on the bytes of a well-formed body. */
  lemma BytesResult(body: string, z: nat, digits: Option<seq<nat>>, maxLen: int)
    requires InAlphabet(body) && z <= |body| && InAlphabet(body[z..]) && (z > 0 ==> z <= maxLen)
    requires Decoded(body) == Repeat<Byte>(0, z) + ToDigits(Number(body[z..]), 256)
    requires body[z..] != [] ==> ToDigits(Number(body[z..]), 256) != []
    requires RunOutcome(body[z..], z, maxLen, digits)
    ensures digits.None? <==> |Decoded(body)| > 0 && |Decoded(body)| > maxLen
  {
    hide Decoded, ToDigits;
    if body[z..] == [] { EmptyNumber(); }
  }

  lemma NonZeroNumber(s: string)
    requires s != [] && InAlphabet(s) && s[0] != '1'
    ensures Number(s) > 0
  {
    OnlyOneIsZero(s, 0);
    CanonicalPositive(Indices(s), 58);
  }

  /** DecodeBase58 over a C string. */
  method DecodeCString(psz: string, maxLen: int) returns (r: Option<seq<Byte>>)
    ensures r == DecodedText(psz, maxLen)
  {
    hide CountNonSpaces, CountLeading, ToDigits, Number, CountSpaces, DecodedText, InAlphabet;
    var p := 0;
    while p < |psz| && IsSpace(psz[p])
      invariant 0 <= p <= CountSpaces(psz)
    {
      p := p + 1;
    }
    var zeroes := 0;
    while p < |psz| && psz[p] == '1'
      invariant p == CountSpaces(psz) + zeroes <= |psz|
      invariant zeroes > 0 ==> zeroes <= maxLen
      invariant forall i :: CountSpaces(psz) <= i < p ==> psz[i] == '1'
    {
      zeroes := zeroes + 1;
      if zeroes > maxLen {
        TooManyOnes(psz, zeroes, maxLen);
        return None;
      }
      p := p + 1;
    }
    var digits, stop := ConvertChars(psz[p..], zeroes, maxLen);
    TextResult(psz, zeroes, digits, stop, maxLen);
    if digits.None? {
      return None;
    }
    p := p + stop;
    ghost var end := p;
    while p < |psz| && IsSpace(psz[p])
      invariant end <= p <= |psz|
      invariant forall i :: end <= i < p ==> IsSpace(psz[i])
    {
      p := p + 1;
    }
    if p < |psz| {
      return None;
    }
    var bytes: seq<Byte> := [];
    for i := 0 to zeroes
      invariant bytes == Repeat<Byte>(0, i)
    {
      bytes := bytes + [0];
    }
    r := Some(bytes + digits.value);
  }

  lemma TooManyOnes(s: string, z: nat, maxLen: int)
    requires CountSpaces(s) + z <= |s| && z > maxLen && z > 0
    requires forall i :: CountSpaces(s) <= i < CountSpaces(s) + z ==> s[i] == '1'
    ensures DecodedText(s, maxLen) == None
  {
    hide ToDigits, CountSpaces, CountNonSpaces, Decoded, InAlphabet, EndsInSpaces;
    var text := s[CountSpaces(s)..];
    SplitBody(text, z);
    assert Body(s) == text[..CountNonSpaces(text)];
    if InAlphabet(Body(s)) { OnesAreBytes(Body(s), z); }
  }

  /** Every leading '1' is a byte of its own. */
  lemma OnesAreBytes(body: string, z: nat)
    requires InAlphabet(body) && z <= |body| && forall i :: 0 <= i < z ==> body[i] == '1'
    ensures |Decoded(body)| >= z
  {
    hide ToDigits, Value, InAlphabet;
  }

  /** DecodeBase58: a text with an embedded NUL is refused, which the decoder would do anyway. */
  method DecodeBase58(str: string, maxLen: int) returns (r: Option<seq<Byte>>)
    ensures r == DecodedText(str, maxLen)
  {
    if '\0' in str {
      NulRefused(str, maxLen);
      return None;
    }
    r := DecodeCString(str, maxLen);
  }

  lemma NulIsNoDigit()
    ensures MapBase58('\0') == -1 && !IsSpace('\0')
  {
  }

  lemma NulRefused(s: string, maxLen: int)
    requires '\0' in s
    ensures DecodedText(s, maxLen) == None
  {
    hide CountSpaces, CountNonSpaces, Decoded, MapBase58;
    NulIsNoDigit();
    var a := CountSpaces(s);
    var k :| 0 <= k < |s| && s[k] == '\0';
    var c := CountNonSpaces(s[a..]);
    if k < a + c { assert Body(s)[k - a] == '\0'; }
  }

  method EncodeBase58Check(hash: seq<Byte> -> Digest, input: seq<Byte>) returns (str: string)
    ensures str == EncodedCheck(hash, input)
  {
    str := EncodeBase58(input + hash(input)[..4]);
  }

  method DecodeBase58Check(hash: seq<Byte> -> Digest, str: string, maxLen: int) returns (r: Option<seq<Byte>>)
    ensures r == DecodedCheck(hash, str, maxLen)
  {
    var vch := DecodeBase58(str, CheckLimit(maxLen));
    if vch.None? || |vch.value| < 4 {
      return None;
    }
    var payload := vch.value[..|vch.value| - 4];
    if hash(payload)[..4] != vch.value[|vch.value| - 4..] {
      return None;
    }
    return Some(payload);
  }
}
