/**
 * Base-62 numerals over the alphabet 0-9, A-Z, a-z (in that order, so the
 * character at index d stands for the digit d), read most significant digit
 * first. This is the specification the encoder's loops are proved against.
 */
module Base62 {

  const DecimalDigits: string := "0123456789"
  const UpperLetters: string := "ABCDEFGHIJKLMNOPQRSTUVWXYZ"
  const LowerLetters: string := "abcdefghijklmnopqrstuvwxyz"

  /** BASE62_CHARS: the 62 digit characters, digit value = index. */
  const Base62Chars: string := DecimalDigits + UpperLetters + LowerLetters

  const Radix: nat := 62

  /** A character of BASE62_CHARS, described by its three ranges. */
  predicate IsDigitChar(c: char)
  {
    '0' <= c <= '9' || 'A' <= c <= 'Z' || 'a' <= c <= 'z'
  }

  /** Every character of `s` is a base-62 digit. */
  predicate IsBase62(s: string)
  {
    forall i :: 0 <= i < |s| ==> IsDigitChar(s[i])
  }

  /** The character for digit `d`, by character arithmetic. */
  function DigitChar(d: nat): (c: char)
    requires d < Radix
    ensures IsDigitChar(c)
    ensures c == '0' <==> d == 0
  {
    if d < 10 then (d + 48) as char
    else if d < 36 then (d + 55) as char
    else (d + 61) as char
  }

  /** The digit value of a base-62 character. */
  function DigitValue(c: char): (d: nat)
    requires IsDigitChar(c)
    ensures d < Radix && DigitChar(d) == c
  {
    if c <= '9' then c as int - 48
    else if c <= 'Z' then c as int - 55
    else c as int - 61
  }

  /** The character at index `d` of BASE62_CHARS is the character of digit `d`. */
  lemma AlphabetAt(d: nat)
    requires d < Radix
    ensures |Base62Chars| == Radix
    ensures Base62Chars[d] == DigitChar(d)
  {
    assert |DecimalDigits| == 10 && |UpperLetters| == 26 && |LowerLetters| == 26;
    if d < 10 {
      DecimalAt(d);
      assert Base62Chars[d] == DecimalDigits[d];
    } else if d < 36 {
      UpperAt(d - 10);
      assert Base62Chars[d] == UpperLetters[d - 10];
    } else {
      LowerAt(d - 36);
      assert Base62Chars[d] == LowerLetters[d - 36];
    }
  }

  lemma DecimalAt(k: nat)
    requires k < 10
    ensures DecimalDigits[k] == (k + 48) as char
  {
  }

  lemma UpperAt(k: nat)
    requires k < 26
    ensures UpperLetters[k] == (k + 65) as char
  {
  }

  lemma LowerAt(k: nat)
    requires k < 26
    ensures LowerLetters[k] == (k + 97) as char
  {
  }

  /** BASE62_CHARS holds exactly the characters of the three ranges. */
  lemma AlphabetMembership(c: char)
    ensures c in Base62Chars <==> IsDigitChar(c)
  {
    if c in Base62Chars {
      var d :| 0 <= d < |Base62Chars| && Base62Chars[d] == c;
      AlphabetAt(d);
    }
    if IsDigitChar(c) {
      AlphabetAt(DigitValue(c));
    }
  }

  function Pow62(k: nat): (p: nat)
    ensures p > 0
  {
    if k == 0 then 1 else Radix * Pow62(k - 1)
  }

  /**
   * The base-62 numeral of `n`, most significant digit first, without
   * leading zeros; empty for 0.
   */
  function Digits(n: nat): (s: string)
    ensures IsBase62(s)
    ensures s == [] <==> n == 0
    ensures s != [] ==> s[0] != '0'
  {
    if n == 0 then [] else Digits(n / Radix) + [DigitChar(n % Radix)]
  }

  /** The value of a base-62 numeral, most significant digit first. */
  function Decode(s: string): (n: nat)
    requires IsBase62(s)
  {
    if s == [] then 0
    else Decode(s[..|s| - 1]) * Radix + DigitValue(s[|s| - 1])
  }

  /** `k` copies of the zero digit. */
  function Zeros(k: nat): (z: string)
    ensures |z| == k
    ensures forall i :: 0 <= i < k ==> z[i] == '0'
  {
    seq(k, _ => '0')
  }

  /** Reading back the numeral of `n` gives `n`. */
  lemma {:induction false} DecodeDigits(n: nat)
    ensures Decode(Digits(n)) == n
  {
    if n > 0 {
      var s := Digits(n);
      assert s[..|s| - 1] == Digits(n / Radix);
      DecodeDigits(n / Radix);
    }
  }

  /** Every numeral without a leading zero is the numeral of its value. */
  lemma {:induction false} DigitsDecode(s: string)
    requires IsBase62(s)
    requires s == [] || s[0] != '0'
    ensures Digits(Decode(s)) == s
  {
    if s != [] {
      var p, c := s[..|s| - 1], s[|s| - 1];
      DigitsDecode(p);
      var d := DigitValue(c);
      var m := Decode(s);
      assert m == Decode(p) * Radix + d;
      assert m / Radix == Decode(p) && m % Radix == d;
      if p == [] {
        assert d != 0;
      } else {
        assert Decode(p) != 0;
      }
      assert Digits(m) == Digits(Decode(p)) + [DigitChar(d)];
      assert s == p + [c];
    }
  }

  /** The numeral of `n` has at most `k` digits exactly when `n < 62^k`. */
  lemma {:induction false} DigitsLength(n: nat, k: nat)
    ensures |Digits(n)| <= k <==> n < Pow62(k)
  {
    if n > 0 && k > 0 {
      DigitsLength(n / Radix, k - 1);
    }
  }

  /** Leading zero digits do not change the value of a numeral. */
  lemma {:induction false} DecodeZerosPrefix(k: nat, s: string)
    requires IsBase62(s)
    ensures IsBase62(Zeros(k) + s)
    ensures Decode(Zeros(k) + s) == Decode(s)
  {
    var z := Zeros(k) + s;
    assert IsBase62(z);
    if s == [] {
      assert z == Zeros(k);
      DecodeZeros(k);
    } else {
      var p := s[..|s| - 1];
      assert z[..|z| - 1] == Zeros(k) + p;
      assert z[|z| - 1] == s[|s| - 1];
      DecodeZerosPrefix(k, p);
      assert Decode(z) == Decode(Zeros(k) + p) * Radix + DigitValue(s[|s| - 1]);
    }
  }

  lemma {:induction false} DecodeZeros(k: nat)
    ensures IsBase62(Zeros(k))
    ensures Decode(Zeros(k)) == 0
  {
    assert IsBase62(Zeros(k));
    if k > 0 {
      assert Zeros(k)[..k - 1] == Zeros(k - 1);
      DecodeZeros(k - 1);
    }
  }

  lemma MulAtLeast(d: int, k: int)
    requires d > 0 && k >= 1
    ensures d * k >= d
  {
    if k > 1 {
      MulAtLeast(d, k - 1);
      assert d * k == d * (k - 1) + d;
    }
  }

  /** Euclidean division has only one quotient. */
  lemma DivUnique(a: int, d: int, q: int, r: int)
    requires d > 0 && a == d * q + r && 0 <= r < d
    ensures a / d == q
  {
    var q', r' := a / d, a % d;
    assert d * (q' - q) == r - r' by {
      assert d * q' + r' == a;
      assert d * (q' - q) == d * q' - d * q;
    }
    if q' - q >= 1 {
      MulAtLeast(d, q' - q);
    } else if q - q' >= 1 {
      MulAtLeast(d, q - q');
    }
  }

  lemma DivDiv(a: nat, b: nat)
    requires b > 0
    ensures a / Radix / b == a / (Radix * b)
  {
    var q, r := a / (Radix * b), a % (Radix * b);
    var r1, r0 := r / Radix, r % Radix;
    assert r1 < b;
    assert a == Radix * (b * q + r1) + r0;
    DivUnique(a, Radix, b * q + r1, r0);
    DivUnique(b * q + r1, b, q, r1);
  }

  /** `n` with its `k` least significant base-62 digits removed. */
  function DropDigits(n: nat, k: nat): (m: nat)
  {
    if k == 0 then n else DropDigits(n / Radix, k - 1)
  }

  /** Removing `k` digits is dividing by 62^k. */
  lemma {:induction false} DropDigitsDivides(n: nat, k: nat)
    ensures DropDigits(n, k) == n / Pow62(k)
  {
    if k > 0 {
      DropDigitsDivides(n / Radix, k - 1);
      DivDiv(n, Pow62(k - 1));
    }
  }

  /**
   * The leading `m` digits of the numeral of `n` are the numeral of `n` with
   * its other digits removed.
   */
  lemma {:induction false} DigitsPrefix(n: nat, m: nat)
    requires m <= |Digits(n)|
    ensures Digits(n)[..m] == Digits(DropDigits(n, |Digits(n)| - m))
  {
    var s := Digits(n);
    if m < |s| {
      var t := Digits(n / Radix);
      assert s == t + [DigitChar(n % Radix)];
      DigitsPrefix(n / Radix, m);
      assert s[..m] == t[..m];
    }
  }
}
