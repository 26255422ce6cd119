/** `std::to_string` and `std::from_chars` on `int`, which both the codec and the store use. */
module Decimal {
  import opened Basics

  predicate Digit(b: byte) {
    0x30 <= b <= 0x39
  }

  predicate AllDigits(s: Bytes) {
    forall i :: 0 <= i < |s| ==> Digit(s[i])
  }

  /** No superfluous leading zero (section 6 of RFC 8259). */
  predicate Canonical(s: Bytes) {
    s != [] && AllDigits(s) && (|s| > 1 ==> s[0] != 0x30)
  }

  function Value(s: Bytes): nat
    requires AllDigits(s)
  {
    if s == [] then 0 else Value(s[..|s| - 1]) * 10 + (s[|s| - 1] - 0x30)
  }

  function DigitsOf(n: nat): Bytes {
    if n < 10 then [0x30 + n] else DigitsOf(n / 10) + [0x30 + n % 10]
  }

  /** `std::to_string(n)`. */
  function IntText(n: int): Bytes {
    if n < 0 then [MINUS] + DigitsOf(-n) else DigitsOf(n)
  }

  function DigitsPart(s: Bytes): Bytes {
    if s != [] && s[0] == MINUS then s[1..] else s
  }

  /** `std::from_chars` into an `int`, when it must consume all of `s`. */
  function FromChars(s: Bytes): Option<int32> {
    var digits := DigitsPart(s);
    if digits == [] || !AllDigits(digits) then None
    else
      var magnitude: int := Value(digits);
      var n := if |digits| < |s| then -magnitude else magnitude;
      if -0x8000_0000 <= n < 0x8000_0000 then Some(n) else None
  }

  lemma {:induction false} DigitsOfIsCanonical(n: nat)
    ensures Canonical(DigitsOf(n)) && Value(DigitsOf(n)) == n
    ensures n > 0 ==> DigitsOf(n)[0] != 0x30
  {
    if n < 10 {
    } else {
      DigitsOfIsCanonical(n / 10);
      var d := DigitsOf(n);
      assert d[..|d| - 1] == DigitsOf(n / 10);
    }
  }

  /** A canonical numeral is the one `std::to_string` writes for its value. */
  lemma {:induction false} CanonicalIsUnique(s: Bytes)
    requires Canonical(s)
    ensures DigitsOf(Value(s)) == s
    ensures s[0] != 0x30 ==> Value(s) > 0
    decreases |s|
  {
    var front := s[..|s| - 1];
    if |s| > 1 {
      CanonicalIsUnique(front);
      assert Value(s) / 10 == Value(front);
      assert s == front + [s[|s| - 1]];
    } else {
      assert Value(front) == 0;
    }
  }

  /** Reading back what was written gives the same `int`. */
  lemma FromCharsInvertsIntText(n: int32)
    ensures FromChars(IntText(n)) == Some(n)
    ensures IntText(n) != [] && Canonical(DigitsPart(IntText(n)))
  {
    var m: int := n;
    var digits := DigitsOf(if m < 0 then -m else m);
    DigitsOfIsCanonical(if m < 0 then -m else m);
    assert DigitsPart(IntText(m)) == digits by {
      assert m < 0 ==> IntText(m)[1..] == digits;
    }
  }

  /** No numeral the parser admits is shorter than the printed form of its value. */
  lemma IntTextIsShortest(s: Bytes)
    requires Canonical(DigitsPart(s)) && FromChars(s).Some?
    ensures |IntText(FromChars(s).value)| <= |s|
  {
    CanonicalIsUnique(DigitsPart(s));
  }

  // ---- Which texts are read as which int ----

  function StripZeros(digits: Bytes): Bytes {
    if |digits| > 1 && digits[0] == 0x30 then StripZeros(digits[1..]) else digits
  }

  /** A signed run of digits without its leading zeros; any other text as it is. */
  function Stripped(s: Bytes): Bytes {
    if !AllDigits(DigitsPart(s)) then s
    else if s != [] && s[0] == MINUS then [MINUS] + StripZeros(s[1..])
    else StripZeros(s)
  }

  lemma {:induction false} LeadingZero(digits: Bytes)
    requires AllDigits(digits) && digits != [] && digits[0] == 0x30
    ensures Value(digits) == Value(digits[1..])
    decreases |digits|
  {
    var n := |digits| - 1;
    if n == 0 {
      assert digits[..0] == [] && digits[1..] == [];
    } else {
      LeadingZero(digits[..n]);
      assert digits[1..][..n - 1] == digits[..n][1..];
    }
  }

  lemma {:induction false} StripKeepsValue(digits: Bytes)
    requires AllDigits(digits) && digits != []
    ensures Canonical(StripZeros(digits)) && Value(StripZeros(digits)) == Value(digits)
    decreases |digits|
  {
    if |digits| == 1 || digits[0] != 0x30 {
    } else {
      LeadingZero(digits);
      StripKeepsValue(digits[1..]);
    }
  }

  /** The one literal of `n` without leading zeros, or minus zero. */
  predicate IsLiteral(s: Bytes, n: int32) {
    s == IntText(n) || (n == 0 && s == [MINUS, 0x30])
  }

  lemma CanonicalIsStripped(s: Bytes)
    requires Canonical(DigitsPart(s))
    ensures Stripped(s) == s
  {
    assert s != [] && s[0] == MINUS ==> s == [MINUS] + s[1..];
  }

  /** A text is read as `n` if and only if, without leading zeros, it is the text of `n`, or minus zero for 0.
      No other text is read: nothing without digits, with other characters, or outside the range of an int. */
  lemma FromCharsExact(s: Bytes, n: int32)
    ensures FromChars(s) == Some(n) <==> IsLiteral(Stripped(s), n)
  {
    hide StripZeros, DigitsOf, Value;
    var digits := DigitsPart(s);
    var minus := |digits| < |s|;
    var m: int := n;
    if digits != [] && AllDigits(digits) {
      StripKeepsValue(digits);
      CanonicalIsUnique(StripZeros(digits));
      SignedText(minus, Value(digits), m);
    } else {
      FromCharsInvertsIntText(n);
      NoDigits(s);
    }
  }

  lemma NoDigits(s: Bytes)
    requires DigitsPart(s) == [] || !AllDigits(DigitsPart(s))
    ensures DigitsPart(Stripped(s)) == DigitsPart(s) && Stripped(s) != [MINUS, 0x30]
  {
  }

  lemma ZeroText()
    ensures DigitsOf(0) == [0x30]
  {
  }

  /** A sign and canonical digits are the text of exactly one int, minus zero apart. */
  lemma SignedText(minus: bool, size: nat, m: int)
    ensures var text := (if minus then [MINUS] else []) + DigitsOf(size);
            (text == IntText(m) || (m == 0 && text == [MINUS, 0x30])) <==> m == (if minus then -1 else 1) * size
  {
    hide DigitsOf;
    var text := (if minus then [MINUS] else []) + DigitsOf(size);
    DigitsOfIsCanonical(size);
    DigitsOfIsCanonical(if m < 0 then -m else m);
    ZeroText();
    if text == IntText(m) {
      assert text[0] == MINUS <==> minus;
      assert IntText(m)[0] == MINUS <==> m < 0;
      assert minus ==> text[1..] == DigitsOf(size) && IntText(m)[1..] == DigitsOf(-m);
      assert !minus ==> text == DigitsOf(size);
    } else if m == 0 && text == [MINUS, 0x30] {
      assert text[0] == MINUS <==> minus;
      assert text[1..] == DigitsOf(size);
    }
  }
}
