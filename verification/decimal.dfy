/** Decimal digit strings: their numeric value and the canonical base-10
    rendering of a natural number (no leading zero, "0" for zero). */
module Decimal {
  import opened Arith

  predicate IsDigit(c: char)
  {
    '0' <= c <= '9'
  }

  predicate AllDigits(s: string)
  {
    forall i :: 0 <= i < |s| ==> IsDigit(s[i])
  }

  /** A non-empty run of ASCII digits. */
  predicate IsDigitString(s: string)
  {
    |s| > 0 && AllDigits(s)
  }

  predicate AllZeros(s: string)
  {
    forall i :: 0 <= i < |s| ==> s[i] == '0'
  }

  /** The canonical form: digits only, and no leading zero unless the whole
      string is "0". */
  predicate IsCanonical(s: string)
  {
    IsDigitString(s) && (s[0] == '0' ==> |s| == 1)
  }

  function DigitValue(c: char): nat
    requires IsDigit(c)
  {
    c as int - '0' as int
  }

  function DigitChar(d: nat): char
    requires d < 10
  {
    ('0' as int + d) as char
  }

  /** The number a digit string denotes, read most significant digit first. */
  function DecValue(s: string): nat
    requires AllDigits(s)
  {
    if |s| == 0 then 0 else 10 * DecValue(s[..|s| - 1]) + DigitValue(s[|s| - 1])
  }

  /** Canonical base-10 rendering of n. */
  function Render(n: nat): (s: string)
    ensures IsCanonical(s) && DecValue(s) == n
  {
    if n < 10 then [DigitChar(n)]
    else
      var p := Render(n / 10);
      var s := p + [DigitChar(n % 10)];
      assert s[..|s| - 1] == p;
      s
  }

  /** Concatenating digit strings shifts the left part by the length of the right. */
  lemma {:induction false} DecValueAppend(s: string, t: string)
    requires AllDigits(s) && AllDigits(t)
    ensures AllDigits(s + t)
    ensures DecValue(s + t) == DecValue(s) * Pow10(|t|) + DecValue(t)
  {
    if |t| == 0 {
      assert s + t == s;
    } else {
      var t' := t[..|t| - 1];
      assert (s + t)[..|s + t| - 1] == s + t';
      DecValueAppend(s, t');
      AppendDigitArith(DecValue(s), Pow10(|t'|), DecValue(t'), DigitValue(t[|t| - 1]));
    }
  }

  /** A run of zeros denotes 0, so leading zeros do not change a value. */
  lemma {:induction false} DecValueZeros(s: string)
    requires AllZeros(s)
    ensures AllDigits(s) && DecValue(s) == 0
  {
    if |s| > 0 {
      DecValueZeros(s[..|s| - 1]);
    }
  }

  /** A digit string whose first digit is not 0 denotes a positive number. */
  lemma DecValueLeading(s: string)
    requires IsDigitString(s) && s[0] != '0'
    ensures DecValue(s) >= 1
  {
    assert s == s[..1] + s[1..];
    DecValueAppend(s[..1], s[1..]);
    assert s[..1][..0] == [];
    Pow10Positive(|s| - 1);
  }

  /** Canonical digit strings are exactly the renderings: the canonical
      string for a number is unique. */
  lemma {:induction false} CanonicalIsRender(s: string)
    requires IsCanonical(s)
    ensures Render(DecValue(s)) == s
  {
    var p := s[..|s| - 1];
    if |s| == 1 {
      assert p == [];
    } else {
      assert p[0] == s[0];
      DecValueLeading(p);
      CanonicalIsRender(p);
      var n := DecValue(s);
      assert n / 10 == DecValue(p) && n % 10 == DigitValue(s[|s| - 1]);
      assert s == p + [s[|s| - 1]];
    }
  }
}
