/** The self-contained helpers of misc.go: digit-string recognition, slice
    equality, case-insensitive membership, whitespace condensing, and the
    range gate that turns a scanned integer into the two 64-bit halves of a
    NumberForm.

    Strings are Go byte strings: one char per byte. Character classes are
    the ASCII ones. */
module Misc {
  import opened Arith
  import opened Decimal
  import opened Wrappers

  /** isNumber: true exactly for a non-empty run of ASCII digits. */
  method IsNumber(val: string) returns (ok: bool)
    ensures ok <==> IsDigitString(val)
  {
    if |val| == 0 {
      return false;
    }
    var i := 0;
    while i < |val|
      invariant 0 <= i <= |val|
      invariant forall j :: 0 <= j < i ==> IsDigit(val[j])
    {
      if !IsDigit(val[i]) {
        return false;
      }
      i := i + 1;
    }
    return true;
  }

  /** intSliceEqual and strSliceEqual: the same loop at two element types.
      Two empty slices are NOT equal. */
  method SliceEqual<T(==)>(s1: seq<T>, s2: seq<T>) returns (equal: bool)
    ensures equal <==> |s1| > 0 && s1 == s2
    ensures equal <==> |s2| > 0 && s2 == s1
  {
    // len(s1)|len(s2) == 0 holds exactly when both lengths are zero
    if (|s1| == 0 && |s2| == 0) || |s1| != |s2| {
      return false;
    }
    var i := 0;
    while i < |s1|
      invariant 0 <= i <= |s1|
      invariant s1[..i] == s2[..i]
    {
      if s1[i] != s2[i] {
        return false;
      }
      assert s1[..i + 1] == s1[..i] + [s1[i]];
      assert s2[..i + 1] == s2[..i] + [s2[i]];
      i := i + 1;
    }
    assert s1 == s1[..i] && s2 == s2[..i];
    return true;
  }

  function ToLower(c: char): char
  {
    if 'A' <= c <= 'Z' then (c as int + 32) as char else c
  }

  /** strings.EqualFold restricted to ASCII case folding. */
  predicate EqualFold(x: string, y: string)
  {
    |x| == |y| && forall i :: 0 <= i < |x| ==> ToLower(x[i]) == ToLower(y[i])
  }

  /** strInSlice: case-insensitive membership; an empty string or an empty
      slice is never a member. */
  method StrInSlice(str: string, slice: seq<string>) returns (found: bool)
    ensures found <==> |str| > 0 && |slice| > 0 &&
                       exists j :: 0 <= j < |slice| && EqualFold(slice[j], str)
  {
    if |str| == 0 || |slice| == 0 {
      return false;
    }
    var j := 0;
    while j < |slice|
      invariant 0 <= j <= |slice|
      invariant forall k :: 0 <= k < j ==> !EqualFold(slice[k], str)
    {
      if EqualFold(slice[j], str) {
        return true;
      }
      j := j + 1;
    }
    return false;
  }

  /** The ASCII white-space set of strings.TrimSpace: tab, newline, vertical
      tab, form feed, carriage return and space. */
  predicate IsSpace(c: char)
  {
    c == ' ' || '\t' <= c <= '\r'
  }

  /** Every character of s in [lo, hi) is white space. */
  predicate SpaceBetween(s: string, lo: int, hi: int)
    requires 0 <= lo <= hi <= |s|
  {
    forall i :: lo <= i < hi ==> IsSpace(s[i])
  }

  /** The number of white-space characters s starts with. */
  function LeadingSpaces(s: string): (k: nat)
    ensures k <= |s| && SpaceBetween(s, 0, k)
    ensures k < |s| ==> !IsSpace(s[k])
  {
    if |s| > 0 && IsSpace(s[0]) then LeadingSpaces(s[1..]) + 1 else 0
  }

  /** The number of white-space characters s ends with. */
  function TrailingSpaces(s: string): (k: nat)
    ensures k <= |s| && SpaceBetween(s, |s| - k, |s|)
    ensures k < |s| ==> !IsSpace(s[|s| - k - 1])
  {
    if |s| > 0 && IsSpace(s[|s| - 1]) then TrailingSpaces(s[..|s| - 1]) + 1 else 0
  }

  function TrimLeft(s: string): (r: string)
    ensures |r| > 0 ==> !IsSpace(r[0])
  {
    s[LeadingSpaces(s)..]
  }

  function TrimRight(s: string): (r: string)
    ensures |r| > 0 ==> !IsSpace(r[|r| - 1])
  {
    s[..|s| - TrailingSpaces(s)]
  }

  /** strings.TrimSpace: the input with its leading and trailing white space
      removed, and nothing else. */
  function TrimSpace(s: string): (r: string)
    ensures |r| > 0 ==> !IsSpace(r[0]) && !IsSpace(r[|r| - 1])
  {
    var l := TrimLeft(s);
    var r := TrimRight(l);
    assert |r| > 0 ==> r[0] == l[0];
    r
  }

  /** Trimming removes white space at the two ends and nothing else. */
  lemma TrimSpaceRemovesOnlySpace(s: string)
    ensures var r, i := TrimSpace(s), LeadingSpaces(s);
            && i + |r| <= |s| && r == s[i..i + |r|]
            && SpaceBetween(s, 0, i) && SpaceBetween(s, i + |r|, |s|)
  {
    var i := LeadingSpaces(s);
    var l := s[i..];
    var j := TrailingSpaces(l);
    var r := l[..|l| - j];
    assert TrimSpace(s) == r;
    assert r == s[i..i + |r|];
    forall k | i + |r| <= k < |s|
      ensures IsSpace(s[k])
    {
      assert s[k] == l[k - i];
    }
  }

  /** A string with no white space at either end is its own trimming. */
  lemma TrimSpaceOfTrimmed(s: string)
    requires |s| > 0 ==> !IsSpace(s[0]) && !IsSpace(s[|s| - 1])
    ensures TrimSpace(s) == s
  {
  }

  predicate NoDoubleSpace(s: string)
  {
    forall i :: 0 <= i < |s| - 1 ==> !(s[i] == ' ' && s[i + 1] == ' ')
  }

  /** Reference definition of condensing: an input ' ' is kept exactly when
      the input character before it is not ' '; every other character is
      kept. Only ' ' runs shrink: tabs and newlines pass through. */
  function Condense(t: string): (r: string)
    ensures |r| <= |t|
    ensures |t| > 0 ==> |r| > 0 && r[0] == t[0] && r[|r| - 1] == t[|t| - 1]
  {
    if |t| == 0 then []
    else
      var p := Condense(t[..|t| - 1]);
      var c := t[|t| - 1];
      if c == ' ' && |t| >= 2 && t[|t| - 2] == ' ' then p else p + [c]
  }

  /** Every character of s other than ' ', in order. */
  function NonSpaces(s: string): string
  {
    if |s| == 0 then []
    else NonSpaces(s[..|s| - 1]) + (if s[|s| - 1] == ' ' then [] else [s[|s| - 1]])
  }

  lemma {:induction false} CondenseNoDoubleSpace(t: string)
    ensures NoDoubleSpace(Condense(t))
  {
    if |t| > 0 {
      CondenseNoDoubleSpace(t[..|t| - 1]);
    }
  }

  lemma NonSpacesSnoc(p: string, c: char)
    ensures NonSpaces(p + [c]) == NonSpaces(p) + (if c == ' ' then [] else [c])
  {
    assert (p + [c])[..|p|] == p;
  }

  /** Condensing keeps every non-' ' character, in order. */
  lemma {:induction false} CondenseKeepsNonSpaces(t: string)
    ensures NonSpaces(Condense(t)) == NonSpaces(t)
  {
    if |t| > 0 {
      var t' := t[..|t| - 1];
      var c := t[|t| - 1];
      CondenseKeepsNonSpaces(t');
      assert t == t' + [c];
      NonSpacesSnoc(t', c);
      if !(c == ' ' && |t| >= 2 && t[|t| - 2] == ' ') {
        NonSpacesSnoc(Condense(t'), c);
      }
    }
  }

  /** A string without "  " is left unchanged by condensing. */
  lemma {:induction false} CondenseOfCondensed(t: string)
    requires NoDoubleSpace(t)
    ensures Condense(t) == t
  {
    if |t| > 0 {
      var t' := t[..|t| - 1];
      assert NoDoubleSpace(t') by {
        forall i | 0 <= i < |t'| - 1
          ensures !(t'[i] == ' ' && t'[i + 1] == ' ')
        {
          assert t'[i] == t[i] && t'[i + 1] == t[i + 1];
        }
      }
      CondenseOfCondensed(t');
      assert t == t' + [t[|t| - 1]];
    }
  }

  lemma CondenseIdempotent(t: string)
    ensures Condense(Condense(t)) == Condense(t)
  {
    CondenseNoDoubleSpace(t);
    CondenseOfCondensed(Condense(t));
  }

  /** What condensing a trimmed string guarantees. */
  lemma CondenseTrimmed(t: string)
    requires |t| > 0 ==> !IsSpace(t[0]) && !IsSpace(t[|t| - 1])
    ensures var a := Condense(t);
            && NoDoubleSpace(a)
            && (|a| > 0 ==> !IsSpace(a[0]) && !IsSpace(a[|a| - 1]))
            && NonSpaces(a) == NonSpaces(t)
  {
    CondenseNoDoubleSpace(t);
    CondenseKeepsNonSpaces(t);
  }

  /** condenseWHSP: trims white space from both ends, then shrinks every run
      of ' ' to a single ' '. */
  method CondenseWhsp(b: string) returns (a: string)
    ensures a == Condense(TrimSpace(b))
    ensures NoDoubleSpace(a)
    ensures |a| > 0 ==> !IsSpace(a[0]) && !IsSpace(a[|a| - 1])
    ensures NonSpaces(a) == NonSpaces(TrimSpace(b))
    ensures |a| <= |b|
  {
    var t := TrimSpace(b);
    a := "";
    var last := false;
    var i := 0;
    while i < |t|
      invariant 0 <= i <= |t|
      invariant a == Condense(t[..i])
      invariant last <==> i > 0 && t[i - 1] == ' '
    {
      var c := t[i];
      assert t[..i + 1][..i] == t[..i];
      if c == ' ' {
        if !last {
          last := true;
          a := a + [c];
        }
      } else {
        last := false;
        a := a + [c];
      }
      i := i + 1;
    }
    assert t[..i] == t;
    CondenseTrimmed(t);
  }

  /** Condensing an already condensed string changes nothing. */
  lemma CondenseWhspIdempotent(b: string)
    ensures Condense(TrimSpace(Condense(TrimSpace(b)))) == Condense(TrimSpace(b))
  {
    var a := Condense(TrimSpace(b));
    TrimSpaceOfTrimmed(a);
    CondenseIdempotent(TrimSpace(b));
  }

  // ---------------------------------------------------------------------
  // sscan: from scanned integer to the halves of a 128-bit value

  datatype ScanError = ScanFailed | NegativeValue | Overflow

  /** The integer syntax big.Int.Scan accepts in this model: an optional
      sign followed by a non-empty run of decimal digits. */
  function ScanInteger(s: string): Option<int>
  {
    if |s| > 0 && s[0] == '-' && IsDigitString(s[1..]) then Some(-(DecValue(s[1..]) as int))
    else if |s| > 0 && s[0] == '+' && IsDigitString(s[1..]) then Some(DecValue(s[1..]))
    else if IsDigitString(s) then Some(DecValue(s))
    else None
  }

  /** sscan: rejects a negative value and a value wider than 128 bits,
      otherwise splits it into (lo, hi) 64-bit halves. It never wraps. */
  function Sscan(s: string): (r: Result<(u64, u64), ScanError>)
    ensures ScanInteger(s).None? ==> r == Err(ScanFailed)
    ensures r.Ok? <==> ScanInteger(s).Some? && 0 <= ScanInteger(s).value < TWO128
    ensures r.Ok? ==> r.value.1 * TWO64 + r.value.0 == ScanInteger(s).value
    ensures ScanInteger(s).Some? && ScanInteger(s).value < 0 ==> r == Err(NegativeValue)
    ensures ScanInteger(s).Some? && ScanInteger(s).value >= TWO128 ==> r == Err(Overflow)
  {
    match ScanInteger(s)
    case None => Err(ScanFailed)
    case Some(i) =>
      if i < 0 then Err(NegativeValue)
      else
        BitLenBelow(i, 128);
        Pow2Constants();
        if BitLen(i) > 128 then Err(Overflow)
        else Ok((i % TWO64, i / TWO64))
  }
}
