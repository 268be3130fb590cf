/**
 * Decimal rendering as printf does it for the conversions the CSV line uses:
 * `%lu` and `%u` (plain unsigned), `%09lu` (unsigned, zero-padded to at least
 * nine digits) and `%i` (signed). The parsers are the independent inverse
 * used to state round trips.
 */
module Decimal {
  import opened Optional

  predicate IsDigit(c: char) { '0' <= c <= '9' }

  predicate AllDigits(s: string) { forall i :: 0 <= i < |s| ==> IsDigit(s[i]) }

  function DigitChar(d: nat): (c: char)
    requires d < 10
    ensures IsDigit(c) && DigitValue(c) == d
  {
    ('0' as int + d) as char
  }

  function DigitValue(c: char): nat
    requires IsDigit(c)
  {
    c as int - '0' as int
  }

  function Pow10(k: nat): (p: nat)
    ensures p >= 1
  {
    if k == 0 then 1 else 10 * Pow10(k - 1)
  }

  /**
   * The digits of `n`, most significant first, zero-padded on the left to at
   * least `width` digits (printf's `%0<width>lu`); `width` 1 is plain `%lu`.
   */
  function Padded(n: nat, width: nat): (s: string)
    ensures |s| >= 1 && |s| >= width
    ensures AllDigits(s)
    decreases n + width, 1
  {
    if n < 10 && width <= 1 then [DigitChar(n)] else PaddedSplit(n, width)
  }

  /**
   * Padded when more than one position is printed: the padded digits of
   * `n / 10`, one position narrower, then the last digit of `n`. It is a
   * separate function, rather than the else branch of Padded, so that the
   * verifier unfolds one digit at a time: every line of a CSV record holds
   * several renderings, and unfolding each of them twice over makes the
   * proofs about whole lines too expensive.
   */
  function PaddedSplit(n: nat, width: nat): (s: string)
    requires n >= 10 || width >= 2
    ensures |s| >= 2 && |s| >= width
    ensures AllDigits(s)
    decreases n + width, 0
  {
    Padded(n / 10, if width == 0 then 0 else width - 1) + [DigitChar(n % 10)]
  }

  /** `%lu` / `%u`: an unsigned integer without padding. */
  function NatText(n: nat): string
  {
    Padded(n, 1)
  }

  /** `%i`: a signed integer, with a leading minus sign when negative. */
  function IntText(v: int): (s: string)
    ensures |s| >= 1 && IsDigit(s[|s| - 1])
    ensures forall i :: 0 <= i < |s| ==> IsDigit(s[i]) || (i == 0 && s[i] == '-')
  {
    if v < 0 then "-" + NatText(-v) else NatText(v)
  }

  /** The value of a string of decimal digits (leading zeros allowed). */
  function DigitsValue(s: string): nat
    requires AllDigits(s)
  {
    if s == [] then 0 else 10 * DigitsValue(s[..|s| - 1]) + DigitValue(s[|s| - 1])
  }

  /** Reads an unsigned decimal: one or more digits, nothing else. */
  function ParseNat(s: string): Option<nat>
  {
    if |s| >= 1 && AllDigits(s) then Some(DigitsValue(s)) else None
  }

  /** Reads a signed decimal: an optional minus sign, then one or more digits. */
  function ParseInt(s: string): Option<int>
  {
    if |s| >= 1 && s[0] == '-' then
      match ParseNat(s[1..])
      case Some(n) => Some(0 - n as int)
      case None => None
    else
      match ParseNat(s)
      case Some(n) => Some(n)
      case None => None
  }

  /** Zero padding never loses the value: the padded text reads back as `n`. */
  lemma {:induction false} ParseNatPadded(n: nat, width: nat)
    ensures ParseNat(Padded(n, width)) == Some(n)
    decreases n + width
  {
    if n < 10 && width <= 1 {
      var s := [DigitChar(n)];
      assert s[..0] == [];
      assert DigitsValue(s) == 10 * DigitsValue([]) + DigitValue(s[0]);
    } else {
      var w := if width == 0 then 0 else width - 1;
      var p := Padded(n / 10, w);
      ParseNatPadded(n / 10, w);
      var s := p + [DigitChar(n % 10)];
      assert s[..|s| - 1] == p;
    }
  }

  /** `%i` round trip: the signed text reads back as the value printed. */
  lemma ParseIntText(v: int)
    ensures ParseInt(IntText(v)) == Some(v)
  {
    if v < 0 {
      ParseNatPadded(-v, 1);
      ParseMinus(NatText(-v), -v);
    } else {
      ParseNatPadded(v, 1);
      ParseUnsigned(NatText(v), v);
    }
  }

  /** A minus sign before an unsigned decimal reads as its negation. */
  lemma ParseMinus(t: string, n: nat)
    requires ParseNat(t) == Some(n)
    ensures ParseInt("-" + t) == Some(0 - n)
  {
    assert ("-" + t)[1..] == t;
  }

  /** An unsigned decimal, with no sign, reads as itself. */
  lemma ParseUnsigned(t: string, n: nat)
    requires ParseNat(t) == Some(n)
    ensures ParseInt(t) == Some(n)
  {
    assert IsDigit(t[0]);
  }

  /**
   * The padded text has exactly `width` digits precisely when `n` fits in
   * `width` digits; a larger `n` is printed in full, with more digits.
   */
  lemma {:induction false} PaddedLength(n: nat, width: nat)
    requires width >= 1
    ensures |Padded(n, width)| == width <==> n < Pow10(width)
    decreases width
  {
    if n < 10 && width <= 1 {
    } else if width == 1 {
      // n >= 10 here: at least two digits
      assert |Padded(n / 10, 0)| >= 1;
    } else {
      PaddedLength(n / 10, width - 1);
    }
  }

  /**
   * Padding only ever adds zeros up to the width: a positive value that
   * fills the whole width or more (always the case for `%lu`, width 1) is
   * printed without a leading zero.
   */
  lemma {:induction false} NoLeadingZero(n: nat, width: nat)
    requires n >= 1 && (width <= 1 || n >= Pow10(width - 1))
    ensures Padded(n, width)[0] != '0'
    decreases n + width
  {
    if n >= 10 || width >= 2 {
      var w := if width == 0 then 0 else width - 1;
      if width >= 3 {
        assert Pow10(width - 1) == 10 * Pow10(w - 1);
      }
      NoLeadingZero(n / 10, w);
      var p := Padded(n / 10, w);
      assert Padded(n, width) == p + [DigitChar(n % 10)];
    }
  }

  /**
   * `%u`/`%lu` and `%i` print the canonical decimal: zero is "0", and
   * otherwise the first digit, after the minus sign of a negative value, is
   * not 0. The text starts with '-' exactly when the value is negative.
   */
  lemma IntTextCanonical(v: int)
    ensures NatText(0) == "0"
    ensures v != 0 ==>
      var s, d := IntText(v), if v < 0 then 1 else 0;
      |s| > d && s[d] != '0'
    ensures IntText(v)[0] == '-' <==> v < 0
  {
    if v < 0 {
      NoLeadingZero(-v, 1);
      assert IntText(v)[1..] == NatText(-v);
    } else if v > 0 {
      NoLeadingZero(v, 1);
    }
  }

  /** printf("%09lu", 42) prints 000000042. */
  lemma NinePaddedExample()
    ensures Padded(42, 9) == "000000042"
  {
    assert Padded(0, 1) == "0";
    assert Padded(0, 2) == "00";
    assert Padded(0, 3) == "000";
    assert Padded(0, 4) == "0000";
    assert Padded(0, 5) == "00000";
    assert Padded(0, 6) == "000000";
    assert Padded(0, 7) == "0000000";
    assert Padded(4, 8) == "00000004";
  }
}
