/**
 * Shortlink generation: fold a random UUID into one non-negative `long`,
 * write it in base 62, cut or pad the numeral to seven characters, and try
 * up to ten such candidates against the store's existence check.
 *
 * The random UUIDs are an input (`uuids`, in the order they would be drawn)
 * and the store's existence check is the set `taken` of shortlinks it holds.
 */
module Base62Encoder {
  import opened Wrappers
  import opened Exceptions
  import opened JavaLong
  import opened Base62

  const ShortlinkLength: nat := 7
  const MaxRetries: nat := 10

  /** The message of the exception thrown when every attempt collided. */
  const ExhaustedMessage: string := "Failed to generate unique shortlink after 10 attempts"

  /** The two 64-bit halves of a UUID, as the `long`s Java hands out. */
  datatype Uuid = Uuid(mostSignificantBits: Long, leastSignificantBits: Long)

  // ---------------------------------------------------------------------------
  // Specification functions

  /**
   * `Math.abs(msb ^ lsb)` on Java longs. The result is the magnitude of the
   * XOR, except when the XOR is the most negative long: its absolute value
   * does not fit and stays negative.
   */
  function Fold(u: Uuid): (r: Long)
    ensures r < 0 <==> Xor(u.mostSignificantBits, u.leastSignificantBits) == MinLong
    ensures r < 0 ==> r == MinLong
    ensures r >= 0 ==> var x := Xor(u.mostSignificantBits, u.leastSignificantBits); r == x || r == -x
  {
    Abs(Xor(u.mostSignificantBits, u.leastSignificantBits))
  }

  /** What encodeBase62 returns for `n`: "0" for zero, the numeral for a positive `n`, "" otherwise. */
  function Encoded(n: Long): (s: string)
  {
    if n == 0 then "0" else if n < 0 then [] else Digits(n)
  }

  /** The seven-character form of a numeral: its leading seven digits, or the numeral padded with '0'. */
  function Normalised(s: string): (r: string)
  {
    if |s| >= ShortlinkLength then s[..ShortlinkLength] else Zeros(ShortlinkLength - |s|) + s
  }

  /** The shortlink that generateFromUUID makes of the folded value `n`. */
  function ShortlinkFor(n: Long): (s: string)
  {
    Normalised(Encoded(n))
  }

  /** The shortlink candidate that the UUID `u` yields. */
  function Candidate(u: Uuid): (s: string)
  {
    ShortlinkFor(Fold(u))
  }

  // ---------------------------------------------------------------------------
  // The encoder's operations

  /** encodeBase62: the base-62 numeral of `number`, most significant digit first. */
  method EncodeBase62(number: Long) returns (r: string)
    ensures number == 0 ==> r == "0"
    ensures number < 0 ==> r == []
    ensures number > 0 ==> r == Digits(number)
    ensures number > 0 ==> IsBase62(r) && r[0] != '0' && Decode(r) == number
  {
    if number == 0 {
      return "0";
    }
    r := [];
    var n: int := number;
    while n > 0
      invariant number < 0 ==> n == number && r == []
      invariant number > 0 ==> 0 <= n && Digits(number) == Digits(n) + r
      decreases if n > 0 then n else 0
    {
      AlphabetAt(n % 62);
      var c := Base62Chars[n % 62];
      assert Digits(n) + r == Digits(n / 62) + ([c] + r);
      r := [c] + r;
      n := n / 62;
    }
    if number > 0 {
      DecodeDigits(number);
    }
  }

  /** padLeft: prepend '0' until `str` is at least `length` long. */
  method PadLeft(str: string, length: int) returns (r: string)
    ensures |r| == if |str| < length then length else |str|
    ensures r[|r| - |str|..] == str
    ensures forall i :: 0 <= i < |r| - |str| ==> r[i] == '0'
  {
    r := str;
    while |r| < length
      invariant |str| <= |r|
      invariant |str| < length ==> |r| <= length
      invariant |str| >= length ==> r == str
      invariant r[|r| - |str|..] == str
      invariant forall i :: 0 <= i < |r| - |str| ==> r[i] == '0'
      decreases length - |r|
    {
      r := "0" + r;
    }
  }

  /** generateFromUUID: the shortlink candidate for one UUID. */
  method GenerateFromUuid(u: Uuid) returns (r: string)
    ensures r == Candidate(u)
    ensures |r| == ShortlinkLength && IsBase62(r)
  {
    var combined := Abs(Xor(u.mostSignificantBits, u.leastSignificantBits));
    var base62 := EncodeBase62(combined);
    if |base62| >= ShortlinkLength {
      r := base62[..ShortlinkLength];
    } else {
      r := PadLeft(base62, ShortlinkLength);
      assert r == Zeros(ShortlinkLength - |base62|) + base62;
    }
    CandidateShape(u);
  }

  /**
   * generateShortLink: return the first of up to ten candidates that the
   * store does not hold; fail once ten candidates have all collided.
   * `attempts` is the number of times the store was consulted.
   */
  method GenerateShortLink(uuids: seq<Uuid>, taken: set<string>)
      returns (result: Result<string, Failure>, attempts: nat)
    requires |uuids| >= MaxRetries
    ensures 1 <= attempts <= MaxRetries
    ensures forall j :: 0 <= j < attempts - 1 ==> Candidate(uuids[j]) in taken
    ensures result.Success? ==> result.value == Candidate(uuids[attempts - 1]) && result.value !in taken
    ensures result.Success? ==> |result.value| == ShortlinkLength && IsBase62(result.value)
    ensures result.Failure? ==> attempts == MaxRetries && result.error == ShortlinkGeneration(ExhaustedMessage)
    ensures result.Failure? <==> forall j :: 0 <= j < MaxRetries ==> Candidate(uuids[j]) in taken
  {
    var attempt := 0;
    while attempt < MaxRetries
      invariant 0 <= attempt <= MaxRetries
      invariant forall j :: 0 <= j < attempt ==> Candidate(uuids[j]) in taken
    {
      var shortLink := GenerateFromUuid(uuids[attempt]);
      if shortLink !in taken {
        return Success(shortLink), attempt + 1;
      }
      attempt := attempt + 1;
    }
    return Failure(ShortlinkGeneration(ExhaustedMessage)), MaxRetries;
  }

  // ---------------------------------------------------------------------------
  // Properties of the candidates

  /** Every candidate is seven base-62 characters. */
  lemma CandidateShape(u: Uuid)
    ensures |Candidate(u)| == ShortlinkLength && IsBase62(Candidate(u))
  {
    var e := Encoded(Fold(u));
    assert IsBase62(e);
    if |e| < ShortlinkLength {
      assert Candidate(u) == Zeros(ShortlinkLength - |e|) + e;
    }
  }

  /** Every character of a candidate occurs in BASE62_CHARS. */
  lemma CandidateInAlphabet(u: Uuid)
    ensures forall i :: 0 <= i < |Candidate(u)| ==> Candidate(u)[i] in Base62Chars
  {
    CandidateShape(u);
    forall i | 0 <= i < |Candidate(u)| {
      AlphabetMembership(Candidate(u)[i]);
    }
  }

  /**
   * When the halves XOR to the most negative long, Math.abs leaves it
   * negative, encodeBase62 returns "" and the shortlink is "0000000".
   */
  lemma MinLongFoldsToZeros(u: Uuid)
    requires Xor(u.mostSignificantBits, u.leastSignificantBits) == MinLong
    ensures Fold(u) == MinLong && Encoded(Fold(u)) == []
    ensures Candidate(u) == "0000000"
  {
  }

  /**
   * Halves that differ only in the sign bit are such a UUID: a non-negative
   * high half `msb` and the low half `msb` with the sign bit set.
   */
  lemma SignFlippedHalvesFoldToZeros(msb: Long)
    requires 0 <= msb
    ensures Fold(Uuid(msb, MinLong + msb)) == MinLong
    ensures Candidate(Uuid(msb, MinLong + msb)) == "0000000"
  {
    XorSignBitOnly(msb);
  }

  /**
   * A UUID of the shape randomUUID produces (version nibble 4 in the high
   * half, variant bits 10 at the top of the low half) that gets "0000000".
   */
  lemma VersionFourUuidFoldsToZeros()
    ensures Candidate(Uuid(0x4000, MinLong + 0x4000)) == "0000000"
  {
    SignFlippedHalvesFoldToZeros(0x4000);
  }

  /** Equal halves fold to 0, which also yields "0000000". */
  lemma EqualHalvesFoldToZeros(u: Uuid)
    requires u.mostSignificantBits == u.leastSignificantBits
    ensures Fold(u) == 0 && Encoded(Fold(u)) == "0"
    ensures Candidate(u) == "0000000"
  {
    XorSelf(u.mostSignificantBits);
  }

  /** Swapping the two halves gives the same shortlink. */
  lemma FoldSymmetric(a: Long, b: Long)
    ensures Fold(Uuid(a, b)) == Fold(Uuid(b, a))
    ensures Candidate(Uuid(a, b)) == Candidate(Uuid(b, a))
  {
    XorSymmetric(a, b);
  }

  /** A folded value below 62^7 is recovered exactly from its shortlink. */
  lemma SmallValueRoundTrip(n: Long)
    requires 0 <= n < Pow62(ShortlinkLength)
    ensures IsBase62(ShortlinkFor(n)) && Decode(ShortlinkFor(n)) == n
  {
    var e := Encoded(n);
    DigitsLength(n, ShortlinkLength);
    if n == 0 {
      assert Decode(e) == 0;
    } else {
      DecodeDigits(n);
      assert e == Digits(n);
    }
    if |e| < ShortlinkLength {
      DecodeZerosPrefix(ShortlinkLength - |e|, e);
    } else {
      assert ShortlinkFor(n) == e;
    }
  }

  /**
   * A folded value of 62^6 or more has a numeral of at least seven digits;
   * the shortlink is its leading seven digits, whose value is the folded
   * value with the other digits divided away.
   */
  lemma LargeValueKeepsLeadingDigits(n: Long)
    requires n >= Pow62(ShortlinkLength - 1)
    ensures |Digits(n)| >= ShortlinkLength
    ensures ShortlinkFor(n) == Digits(n)[..ShortlinkLength]
    ensures Decode(ShortlinkFor(n)) == n / Pow62(|Digits(n)| - ShortlinkLength)
  {
    DigitsLength(n, ShortlinkLength - 1);
    var k := |Digits(n)| - ShortlinkLength;
    DigitsPrefix(n, ShortlinkLength);
    DropDigitsDivides(n, k);
    DecodeDigits(DropDigits(n, k));
  }
}
