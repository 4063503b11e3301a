/** condenseWHSP as written, on bytes outside ASCII: each kept byte is
    appended through string(rune(byte)), which re-encodes bytes from 0x80 up
    as two-byte UTF-8. Misc.CondenseWhsp is the byte-preserving behaviour the
    rest of the model uses. */
module CondenseFinding {
  import opened Misc

  /** Go's string(rune(b)) for one byte b: the UTF-8 encoding of the code
      point numbered b, two bytes long when b >= 0x80. */
  function EncodeByteRune(c: char): string
    requires c as int < 256
  {
    if c as int < 0x80 then [c]
    else [(0xC0 + c as int / 64) as char, (0x80 + c as int % 64) as char]
  }

  predicate IsByteString(s: string)
  {
    forall i :: 0 <= i < |s| ==> s[i] as int < 256
  }

  predicate IsAscii(s: string)
  {
    forall i :: 0 <= i < |s| ==> s[i] as int < 0x80
  }

  /** The condensing loop of condenseWHSP as written: each kept byte is
      appended as string(rune(byte)). */
  function CondenseAsWritten(t: string): (r: string)
    requires IsByteString(t)
    ensures IsAscii(t) ==> r == Condense(t)
  {
    if |t| == 0 then []
    else
      var p := CondenseAsWritten(t[..|t| - 1]);
      var c := t[|t| - 1];
      if c == ' ' && |t| >= 2 && t[|t| - 2] == ' ' then p else p + EncodeByteRune(c)
  }

  /** On the two bytes of UTF-8 "é" (no white space, so trimming keeps them)
      the loop as written returns four bytes: the input is re-encoded and
      grows, where condensing should only ever shrink it. */
  lemma CondenseAsWrittenGrows()
    ensures var b := "\U{C3}\U{A9}";
            IsByteString(b) && |CondenseAsWritten(b)| == 4 > |b| >= |Condense(b)|
  {
    var b := "\U{C3}\U{A9}";
    var p := CondenseAsWritten(b[..1]);
    assert b[..1][..0] == [];
    assert |p| == 2;
    assert CondenseAsWritten(b) == p + EncodeByteRune(b[1]);
  }
}
