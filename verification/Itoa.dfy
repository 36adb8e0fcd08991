/** itoa: the decimal text of a 32-bit int, written backwards into a static buffer. */
module Itoa {
  import opened Memory
  import opened Wrappers

  type Int32 = x: int | -0x8000_0000 <= x < 0x8000_0000

  const TEXT_SIZE := 12
  const ZERO: Byte := '0' as int
  const MINUS: Byte := '-' as int

  /** The absolute value, which need not fit in 32 bits. */
  function Absolute(i: int): nat {
    if i >= 0 then i else -i
  }

  /** C division rounds towards zero, and the remainder takes the sign of the dividend. */
  function Quotient(a: Int32, b: nat): Int32
    requires b > 0
  {
    if a >= 0 then a / b else -(Absolute(a) / b)
  }

  function Remainder(a: Int32, b: nat): int
    requires b > 0
  {
    a - b * Quotient(a, b)
  }

  // ---------------------------------------------------------------------------
  // Decimal text.
  // ---------------------------------------------------------------------------

  predicate IsDigit(c: Byte) {
    ZERO <= c < ZERO + 10
  }

  predicate Digits(s: seq<Byte>) {
    s != [] && forall i :: 0 <= i < |s| ==> IsDigit(s[i])
  }

  /** No leading zero but in "0" itself. */
  predicate Canonical(s: seq<Byte>) {
    Digits(s) && (|s| == 1 || s[0] != ZERO)
  }

  /** The number a text of digits denotes. */
  function Denotes(s: seq<Byte>): int {
    if s == [] then 0 else 10 * Denotes(s[..|s| - 1]) + (s[|s| - 1] - ZERO)
  }

  /** The number a text denotes, sign included; none if it is no decimal text. */
  function Parse(s: seq<Byte>): (r: Option<int>) {
    if s != [] && s[0] == MINUS then
      if Canonical(s[1..]) && Denotes(s[1..]) != 0 then Some(-Denotes(s[1..])) else None
    else
      if Canonical(s) then Some(Denotes(s)) else None
  }

  /** One digit is a text of its own; '0' is 48. */
  lemma ParsesDigit(d: nat)
    requires d < 10
    ensures Parse([48 + d]) == Some(d)
  {
    assert Denotes([48 + d][..0]) == 0;
  }

  /** The text of a positive number goes on with a digit. */
  lemma ParsesDigitByDigit(s: seq<Byte>, d: nat)
    requires d < 10 && Parse(s).Some? && Parse(s).value > 0
    ensures Parse(s + [48 + d]) == Some(10 * Parse(s).value + d)
  {
    var t := s + [48 + d];
    assert t[..|s|] == s && t[0] == s[0];
    if s[0] == MINUS {
      CanonicalIsUnique(s[1..]);
    } else if s == [ZERO] {
      assert Denotes(s[..0]) == 0;
    }
  }

  /** A sign before the text of a positive number makes it negative; '-' is 45. */
  lemma ParsesSign(s: seq<Byte>)
    requires Parse(s).Some? && Parse(s).value > 0
    ensures Parse([45] + s) == Some(-Parse(s).value)
  {
    assert ([45] + s)[1..] == s;
    if s[0] == MINUS {
      CanonicalIsUnique(s[1..]);
    }
  }

  /** The digits of a number; none for zero. */
  function Decimal(n: nat): seq<Byte> {
    if n == 0 then [] else Decimal(n / 10) + [ZERO + n % 10]
  }

  lemma {:induction false} DecimalDenotes(n: nat)
    requires n > 0
    ensures Canonical(Decimal(n)) && Decimal(n)[0] != ZERO && Denotes(Decimal(n)) == n
  {
    if n >= 10 {
      DecimalDenotes(n / 10);
    } else {
      assert Decimal(n) == [ZERO + n];
    }
    var s := Decimal(n);
    assert s[..|s| - 1] == Decimal(n / 10);
  }

  function Pow10(k: nat): nat {
    if k == 0 then 1 else 10 * Pow10(k - 1)
  }

  lemma {:induction false} DecimalLength(n: nat, k: nat)
    requires n < Pow10(k)
    ensures |Decimal(n)| <= k
  {
    if n > 0 {
      DecimalLength(n / 10, k - 1);
    }
  }

  lemma AtMostTenDigits(n: nat)
    requires n <= 0x8000_0000
    ensures |Decimal(n)| <= 10
  {
    assert Pow10(5) == 100000;
    assert Pow10(10) == 100000 * Pow10(5);
    DecimalLength(n, 10);
  }

  /** A text of digits without a leading zero is the decimal text of the number it denotes. */
  lemma {:induction false} DigitsAreDecimal(s: seq<Byte>)
    requires Digits(s) && s[0] != ZERO
    ensures Denotes(s) > 0 && Decimal(Denotes(s)) == s
  {
    var front, last := s[..|s| - 1], s[|s| - 1] - ZERO;
    if front != [] {
      DigitsAreDecimal(front);
    }
    assert IsDigit(s[|s| - 1]);
    assert Denotes(s) == 10 * Denotes(front) + last;
    assert Denotes(s) / 10 == Denotes(front) && Denotes(s) % 10 == last;
  }

  /** Reading is one to one: a number has a single text, so "parses back" leaves itoa no choice. */
  lemma TextIsUnique(s: seq<Byte>, t: seq<Byte>)
    requires Parse(s).Some? && Parse(s) == Parse(t)
    ensures s == t
  {
    CanonicalIsUnique(Magnitude(s));
    CanonicalIsUnique(Magnitude(t));
  }

  function Magnitude(s: seq<Byte>): seq<Byte> {
    if s != [] && s[0] == MINUS then s[1..] else s
  }

  lemma CanonicalIsUnique(s: seq<Byte>)
    requires Canonical(s)
    ensures Denotes(s) >= 0 && s == if Denotes(s) == 0 then [ZERO] else Decimal(Denotes(s))
  {
    if s[0] != ZERO {
      DigitsAreDecimal(s);
    } else {
      assert s == [ZERO] && Denotes(s[..0]) == 0;
    }
  }

  // ---------------------------------------------------------------------------
  // The routine.
  // ---------------------------------------------------------------------------

  /** The digits written so far, followed by those still to come. */
  ghost predicate PartWritten(text: seq<Byte>, loc: nat, rest: nat, n: nat) {
    var partWritten :=
      && loc < TEXT_SIZE == |text| && text[TEXT_SIZE - 1] == 0
      && Decimal(n) == Decimal(rest) + text[loc..TEXT_SIZE - 1];
    partWritten
  }

  lemma RoomLeft(text: seq<Byte>, loc: nat, rest: nat, n: nat)
    requires PartWritten(text, loc, rest, n) && n <= 0x8000_0000
    ensures if rest > 0 then loc >= 2 else loc >= 1
  {
    AtMostTenDigits(n);
    assert |Decimal(n)| == |Decimal(rest)| + TEXT_SIZE - 1 - loc;
  }

  /** For a number that is not positive. */
  lemma DigitOf(i: Int32)
    requires i <= 0
    ensures Absolute(Quotient(i, 10)) == Absolute(i) / 10 && ZERO - Remainder(i, 10) == ZERO + Absolute(i) % 10
    ensures i < 0 ==> i < Quotient(i, 10) <= 0
  {
  }

  /** One digit moves from the number to the text. */
  lemma DigitWritten(text: seq<Byte>, loc: nat, rest: nat, n: nat)
    requires PartWritten(text, loc, rest, n) && rest > 0 && loc >= 1
    ensures PartWritten(text[loc - 1 := ZERO + rest % 10], loc - 1, rest / 10, n)
  {
    var text' := text[loc - 1 := ZERO + rest % 10];
    assert text'[loc - 1..TEXT_SIZE - 1] == [ZERO + rest % 10] + text[loc..TEXT_SIZE - 1];
  }

  /** The loop of itoa. It works on a number that is not positive, whose remainders are not either. */
  method WriteDigits(text: array<Byte>, number: Int32) returns (loc: nat)
    requires text.Length == TEXT_SIZE && number <= 0 && text[TEXT_SIZE - 1] == 0
    modifies text
    ensures 1 <= loc < TEXT_SIZE && text[TEXT_SIZE - 1] == 0
    ensures text[loc..TEXT_SIZE - 1] == Decimal(Absolute(number))
    ensures text[..loc] == old(text[..loc])
  {
    ghost var n := Absolute(number);
    loc := TEXT_SIZE - 1;
    var i := number;
    while i != 0
      invariant i <= 0 && PartWritten(text[..], loc, Absolute(i), n)
      invariant text[..loc] == old(text[..loc])
      decreases Absolute(i)
    {
      RoomLeft(text[..], loc, Absolute(i), n);
      DigitOf(i);
      DigitWritten(text[..], loc, Absolute(i), n);
      loc := loc - 1;
      text[loc] := ZERO - Remainder(i, 10);
      i := Quotient(i, 10);
    }
    RoomLeft(text[..], loc, 0, n);
  }

  /** itoa, given its static buffer: the text from `loc` to the NUL reads back as the number, and
      what lies before `loc` is not touched. */
  method ToText(text: array<Byte>, number: Int32) returns (loc: nat)
    requires text.Length == TEXT_SIZE
    modifies text
    ensures loc < TEXT_SIZE - 1 && text[TEXT_SIZE - 1] == 0
    ensures Parse(text[loc..TEXT_SIZE - 1]) == Some(number)
    ensures text[..loc] == old(text[..loc])
  {
    text[TEXT_SIZE - 1] := 0;
    var neg, i := true, number;
    if i >= 0 {
      neg := false;
      i := -i;
    }
    loc := WriteDigits(text, i);
    if loc == TEXT_SIZE - 1 {
      loc := loc - 1;
      text[loc] := ZERO;
      assert text[loc..TEXT_SIZE - 1] == [ZERO];
    }
    ghost var digits := text[loc..TEXT_SIZE - 1];
    if neg {
      loc := loc - 1;
      text[loc] := MINUS;
      assert text[loc..TEXT_SIZE - 1] == [MINUS] + digits;
    }
    FinishedText(number, text[loc..TEXT_SIZE - 1]);
  }

  /** What the buffer holds in the end. */
  lemma FinishedText(number: Int32, s: seq<Byte>)
    requires var n := Absolute(number);
             s == (if number < 0 then [MINUS] else []) + (if n == 0 then [ZERO] else Decimal(n))
    ensures Parse(s) == Some(number)
  {
    var n := Absolute(number);
    if n > 0 {
      DecimalDenotes(n);
    }
    var digits := if n == 0 then [ZERO] else Decimal(n);
    assert Canonical(digits) && Denotes(digits) == n by {
      assert n == 0 ==> Denotes(digits[..0]) == 0;
    }
    if number < 0 {
      assert s[1..] == digits;
    } else {
      assert s == digits && IsDigit(digits[0]);
    }
  }
}
