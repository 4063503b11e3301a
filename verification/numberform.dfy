/** NumberForm: the unsigned 128-bit value of one OID arc (wide enough for
    UUID-based arcs), stored as two 64-bit halves plus a flag that tells a
    properly constructed value from Go's zero value. */
module NumberForms {
  import opened Arith
  import opened Decimal
  import opened Wrappers
  import opened Misc

  datatype NumberForm = NumberForm(lo: u64, hi: u64, parsed: bool)

  /** Go's zero value of the type (never constructed). */
  const ZeroValue: NumberForm := NumberForm(0, 0, false)

  /** The number a NumberForm stands for. */
  function Value(a: NumberForm): nat
  {
    a.hi * TWO64 + a.lo
  }

  lemma ValueBelow(a: NumberForm)
    ensures Value(a) < TWO128
  {
    assert a.hi * TWO64 <= (TWO64 - 1) * TWO64;
  }

  /** Comparing the halves high word first is comparing the values. */
  lemma HalvesCompareAsValues(a: NumberForm, b: NumberForm)
    ensures (a.hi > b.hi || (a.hi == b.hi && a.lo > b.lo)) <==> Value(a) > Value(b)
    ensures (a.hi == b.hi && a.lo == b.lo) <==> Value(a) == Value(b)
  {
    if a.hi > b.hi {
      assert a.hi * TWO64 >= (b.hi + 1) * TWO64;
    } else if a.hi < b.hi {
      assert b.hi * TWO64 >= (a.hi + 1) * TWO64;
    }
  }

  /** IsZero: the value is 0 (whether or not it was constructed). */
  function IsZero(a: NumberForm): (z: bool)
    ensures z <==> Value(a) == 0
  {
    a.lo == 0 && a.hi == 0
  }

  /** Valid: the value was properly constructed. Go's zero value never is. */
  function Valid(a: NumberForm): (v: bool)
    ensures v <==> a.parsed
    ensures v ==> a != ZeroValue
  {
    a.parsed
  }

  /** The operand kinds NewNumberForm, Equal, Gt and Lt distinguish. */
  datatype Operand =
    | NF(nf: NumberForm)
    | Str(s: string)
    | U64(u: u64)
    | Int(i: i64)
    | Unsupported

  /** NewNumberForm's (value, error) pair. */
  datatype Made = Made(nf: NumberForm, err: Option<ScanError>)

  /** NewNumberForm: a string is scanned and range-checked; an int must not
      be negative; a uint64 is taken as it is; any other operand yields the
      zero value and no error. */
  function NewNumberForm(v: Operand): (r: Made)
    ensures r.err.Some? ==> r.nf == ZeroValue
    ensures Valid(r.nf) <==> r.err.None? && (v.Str? || v.U64? || v.Int?)
    ensures v.Int? ==> (r.err.Some? <==> v.i < 0)
    ensures v.Int? && v.i >= 0 ==> r.nf == NumberForm(v.i, 0, true)
    ensures v.U64? ==> r == Made(NumberForm(v.u, 0, true), None)
    ensures v.NF? || v.Unsupported? ==> r == Made(ZeroValue, None)
    ensures v.Str? ==> (r.err.None? <==> ScanInteger(v.s).Some? && 0 <= ScanInteger(v.s).value < TWO128)
    ensures v.Str? && r.err.None? ==> Value(r.nf) == ScanInteger(v.s).value
  {
    match v
    case Str(s) =>
      (match Sscan(s)
       case Ok(halves) => Made(NumberForm(halves.0, halves.1, true), None)
       case Err(e) => Made(ZeroValue, Some(e)))
    case Int(i) =>
      if i < 0 then Made(ZeroValue, Some(NegativeValue)) else Made(NumberForm(i, 0, true), None)
    case U64(u) => Made(NumberForm(u, 0, true), None)
    case _ => Made(ZeroValue, None)
  }

  /** Both the zero value and a constructed zero are zero; only the
      constructed one is valid. */
  lemma ZeroValueAndParsedZero()
    ensures IsZero(ZeroValue) && !Valid(ZeroValue)
    ensures var z := NewNumberForm(Int(0)).nf; IsZero(z) && Valid(z)
    ensures var z := NewNumberForm(Str("0")).nf; IsZero(z) && Valid(z)
  {
    assert ScanInteger("0") == Some(0);
  }

  /** Equal: with a NumberForm operand the whole record is compared, the
      parsed flag included; a string must scan, and the receiver must then
      be valid with the same value; integers compare by value. A negative
      int or an unsupported operand is never equal. */
  function Equal(a: NumberForm, n: Operand): (r: bool)
    ensures n.NF? ==> (r <==> a == n.nf)
    ensures n.Str? ==> (r <==> Valid(a) && ScanInteger(n.s) == Some(Value(a) as int))
    ensures n.U64? ==> (r <==> Value(a) == n.u)
    ensures n.Int? ==> (r <==> n.i >= 0 && Value(a) == n.i)
    ensures n.Unsupported? ==> !r
  {
    match n
    case NF(b) => a == b
    case Str(s) =>
      var m := NewNumberForm(Str(s));
      ValueBelow(a);
      HalvesCompareAsValues(a, m.nf);
      m.err.None? && a == m.nf
    case U64(u) => a.lo == u && a.hi == 0
    case Int(i) => 0 <= i && a.lo == i && a.hi == 0
    case Unsupported => false
  }

  /** Gt as written. With a NumberForm or a string operand it is the
      numeric order; with a uint64 or int operand it additionally demands a
      zero high half, so a receiver of 2^64 or more is never "greater". */
  function Gt(a: NumberForm, n: Operand): (r: bool)
    ensures n.NF? ==> (r <==> Value(a) > Value(n.nf))
    ensures n.Str? ==> (r <==> NewNumberForm(n).err.None? && Value(a) > ScanInteger(n.s).value)
    ensures n.U64? ==> (r <==> a.hi == 0 && Value(a) > n.u)
    ensures n.Int? ==> (r <==> n.i >= 0 && a.hi == 0 && Value(a) > n.i)
    ensures n.Unsupported? ==> !r
  {
    match n
    case NF(b) =>
      HalvesCompareAsValues(a, b);
      a.hi > b.hi || (a.hi == b.hi && a.lo > b.lo)
    case Str(s) =>
      var m := NewNumberForm(Str(s));
      HalvesCompareAsValues(a, m.nf);
      m.err.None? && (a.hi > m.nf.hi || (a.hi == m.nf.hi && a.lo > m.nf.lo))
    case U64(u) => a.lo > u && a.hi == 0
    case Int(i) => 0 <= i && a.lo > i && a.hi == 0
    case Unsupported => false
  }

  /** Lt: the numeric order for every supported operand; false for a
      negative int, a string that does not scan, or an unsupported operand. */
  function Lt(a: NumberForm, n: Operand): (r: bool)
    ensures n.NF? ==> (r <==> Value(a) < Value(n.nf))
    ensures n.Str? ==> (r <==> NewNumberForm(n).err.None? && Value(a) < ScanInteger(n.s).value)
    ensures n.U64? ==> (r <==> Value(a) < n.u)
    ensures n.Int? ==> (r <==> n.i >= 0 && Value(a) < n.i)
    ensures n.Unsupported? ==> !r
  {
    match n
    case NF(b) =>
      HalvesCompareAsValues(b, a);
      a.hi < b.hi || (a.hi == b.hi && a.lo < b.lo)
    case Str(s) =>
      var m := NewNumberForm(Str(s));
      HalvesCompareAsValues(m.nf, a);
      m.err.None? && (a.hi < m.nf.hi || (a.hi == m.nf.hi && a.lo < m.nf.lo))
    case U64(u) => a.lo < u && a.hi == 0
    case Int(i) => 0 <= i && a.lo < i && a.hi == 0
    case Unsupported => false
  }

  /** Between two NumberForms Gt and Lt are strict orders that mirror each
      other, and at most one of Gt, Lt and value equality holds. */
  lemma CompareNumberForms(a: NumberForm, b: NumberForm)
    ensures Gt(a, NF(b)) <==> Lt(b, NF(a))
    ensures !Gt(a, NF(a)) && !Lt(a, NF(a))
    ensures !(Gt(a, NF(b)) && Lt(a, NF(b)))
    ensures Gt(a, NF(b)) || Lt(a, NF(b)) || Value(a) == Value(b)
  {
  }

  /** A negative int, a string that does not scan to an in-range value, and
      an unsupported operand make every comparison false. */
  lemma UnorderedOperandsCompareFalse(a: NumberForm, n: Operand)
    requires (n.Int? && n.i < 0) || (n.Str? && NewNumberForm(n).err.Some?) || n.Unsupported?
    ensures !Equal(a, n) && !Gt(a, n) && !Lt(a, n)
  {
  }

  /** Gt as the comparison evidently intends it: numeric order for every
      supported operand. */
  function GtIntended(a: NumberForm, n: Operand): (r: bool)
    ensures n.NF? ==> (r <==> Value(a) > Value(n.nf))
    ensures n.Str? ==> (r <==> NewNumberForm(n).err.None? && Value(a) > ScanInteger(n.s).value)
    ensures n.U64? ==> (r <==> Value(a) > n.u)
    ensures n.Int? ==> (r <==> n.i >= 0 && Value(a) > n.i)
    ensures n.Unsupported? ==> !r
    ensures !n.U64? && !n.Int? ==> r == Gt(a, n)
  {
    match n
    case U64(u) => a.hi > 0 || a.lo > u
    case Int(i) => 0 <= i && (a.hi > 0 || a.lo > i)
    case _ => Gt(a, n)
  }

  /** The receiver 2^64 is greater than 0, yet Gt with a uint64 operand says
      it is not: every receiver with a non-zero high half is affected. */
  lemma GtMissesWideReceivers(a: NumberForm, u: u64, i: i64)
    requires a.hi != 0 && i >= 0
    ensures Value(a) > u && !Gt(a, U64(u)) && GtIntended(a, U64(u))
    ensures Value(a) > i && !Gt(a, Int(i)) && GtIntended(a, Int(i))
  {
  }

  // ---------------------------------------------------------------------
  // Bit length

  /** bits.LeadingZeros64: the count of zero bits above the highest set bit
      of a 64-bit word. */
  function LeadingZeros64(x: u64): (n: nat)
    ensures n <= 64 && x < Pow2(64 - n)
    ensures n < 64 ==> Pow2(63 - n) <= x
  {
    BitLenBelow(x, 64);
    Pow2Constants();
    BitLenBounds(x);
    64 - BitLen(x)
  }

  /** leadingZeros: counted on the high half first, then 64 plus the count
      of the low half. This is the leading-zero count of the 128-bit value,
      and it is 128 exactly for zero. */
  function LeadingZeros(a: NumberForm): (n: nat)
    ensures BitLen(Value(a)) <= 128 && n == 128 - BitLen(Value(a))
    ensures n == 128 <==> Value(a) == 0
  {
    BitLenOfHalves(a.hi, a.lo);
    if a.hi > 0 then LeadingZeros64(a.hi) else 64 + LeadingZeros64(a.lo)
  }

  /** len: the number of bits needed to write the value; 0 exactly for a
      zero value, never more than 128. */
  function Len(a: NumberForm): (n: nat)
    ensures n == BitLen(Value(a))
    ensures n <= 128
    ensures n == 0 <==> IsZero(a)
  {
    128 - LeadingZeros(a)
  }

  // ---------------------------------------------------------------------
  // Division

  /** bits.Div64: the quotient and remainder of the 128-bit number hi:lo by
      y. Go panics when y is 0 or when hi >= y (the quotient would not fit). */
  function Div64(hi: u64, lo: u64, y: u64): (qr: (u64, u64))
    requires y != 0 && hi < y
    ensures qr.0 * y + qr.1 == hi * TWO64 + lo && qr.1 < y
  {
    var n := hi * TWO64 + lo;
    assert n < y * TWO64 by {
      assert (hi + 1) * TWO64 <= y * TWO64;
    }
    DivBelow(n, y, TWO64);
    (n / y, n % y)
  }

  /** quoRem64: divides the 128-bit value by a non-zero 64-bit divisor.
      The guard picks, for every call of Div64, a high word below the
      divisor. The quotient is not marked constructed. */
  function QuoRem64(a: NumberForm, v: u64): (qr: (NumberForm, u64))
    requires v != 0
    ensures Value(qr.0) * v + qr.1 == Value(a) && qr.1 < v
    ensures !Valid(qr.0)
  {
    if a.hi < v then
      var d := Div64(a.hi, a.lo, v);
      (NumberForm(d.0, 0, false), d.1)
    else
      var h := Div64(0, a.hi, v);
      var l := Div64(h.1, a.lo, v);
      var q := NumberForm(l.0, h.0, false);
      assert Value(q) * v + l.1 == (h.0 * v + h.1) * TWO64 + a.lo by {
        assert Value(q) * v == h.0 * v * TWO64 + l.0 * v;
      }
      (q, l.1)
  }

  // ---------------------------------------------------------------------
  // Decimal rendering

  /** `buf[k] += byte(d)` on a place that still holds '0': it raises that
      byte by the digit d. */
  function AddDigit(out: string, k: nat, d: nat): string
    requires k < |out| && out[k] == '0' && d < 10
  {
    out[k := (out[k] as int + d) as char]
  }

  /** The state of the inner loop of String after n digits: the digits
      written just below position i, with rest still to write, account
      for r, and nothing else in the buffer has changed. */
  ghost predicate Chunk(buf: string, out: string, i: nat, r: nat, rest: nat, n: nat)
  {
    |buf| == 40 && |out| == 40 && n <= i <= 40 && n <= 19
    && out[i..] == buf[i..] && AllZeros(out[..i - n])
    && AllDigits(out[i - n..i]) && r == rest * Pow10(n) + DecValue(out[i - n..i])
    && (rest == 0 && n > 0 ==> out[i - n] != '0')
  }

  /** Adding digit d to the zero just below a run of digits extends the
      run by one place, worth d at the weight of the run's length. */
  lemma PrependDigit(out: string, i: nat, n: nat, d: nat)
    requires n < i <= |out| && d < 10 && out[i - n - 1] == '0'
    requires AllDigits(out[i - n..i])
    ensures AllDigits(AddDigit(out, i - n - 1, d)[i - (n + 1)..i])
    ensures DecValue(AddDigit(out, i - n - 1, d)[i - (n + 1)..i])
      == d * Pow10(n) + DecValue(out[i - n..i])
  {
    var tail := out[i - n..i];
    var next := AddDigit(out, i - n - 1, d);
    var c := next[i - n - 1];
    assert next[i - (n + 1)..i] == [c] + tail;
    assert DecValue([c]) == d by {
      assert [c][..0] == [];
    }
    DecValueAppend([c], tail);
  }

  /** One step of the inner loop: adding the last digit of rest to the
      zero just below the digits written keeps the accounting. */
  lemma ChunkStep(buf: string, out: string, i: nat, r: nat, rest: nat, n: nat)
    requires Chunk(buf, out, i, r, rest, n) && rest != 0
    requires r < Pow10(i) && r < Pow10(19)
    ensures n < i && n < 19 && out[i - n - 1] == '0'
    ensures |AddDigit(out, i - n - 1, rest % 10)| == 40
    ensures AddDigit(out, i - n - 1, rest % 10)[i..] == buf[i..]
    ensures AllZeros(AddDigit(out, i - n - 1, rest % 10)[..i - (n + 1)])
    ensures AllDigits(AddDigit(out, i - n - 1, rest % 10)[i - (n + 1)..i])
    ensures r == (rest / 10) * Pow10(n + 1) + DecValue(AddDigit(out, i - n - 1, rest % 10)[i - (n + 1)..i])
    ensures rest / 10 == 0 ==> AddDigit(out, i - n - 1, rest % 10)[i - (n + 1)] != '0'
  {
    assert n < i && n < 19 by {
      Pow10Below(rest, n, i);
      Pow10Below(rest, n, 19);
    }
    assert out[i - n - 1] == '0' by {
      assert out[i - n - 1] == out[..i - n][i - n - 1];
    }
    var next := AddDigit(out, i - n - 1, rest % 10);
    var window := next[i - (n + 1)..i];
    assert AllDigits(window) && r == (rest / 10) * Pow10(n + 1) + DecValue(window) by {
      PrependDigit(out, i, n, rest % 10);
      var p := Pow10(n);
      assert Pow10(n + 1) == 10 * p;
      DigitStep(r, rest, p, DecValue(out[i - n..i]), Pow10(n + 1), DecValue(window));
    }
    assert AllZeros(next[..i - (n + 1)]) by {
      assert next[..i - (n + 1)] == out[..i - n][..i - (n + 1)];
    }
    assert next[i..] == out[i..];
    assert rest / 10 == 0 ==> next[i - (n + 1)] != '0';
  }

  /** The inner loop's invariant is kept by one step. */
  lemma ChunkNext(buf: string, out: string, i: nat, r: nat, rest: nat, n: nat)
    requires Chunk(buf, out, i, r, rest, n) && rest != 0
    requires r < Pow10(i) && r < Pow10(19)
    ensures n < i && out[i - n - 1] == '0'
    ensures Chunk(buf, AddDigit(out, i - n - 1, rest % 10), i, r, rest / 10, n + 1)
  {
    ChunkStep(buf, out, i, r, rest, n);
  }

  /** Before the first digit, the whole of r is still to write. */
  lemma ChunkStart(buf: string, i: nat, r: nat)
    requires |buf| == 40 && i <= 40 && AllZeros(buf[..i])
    ensures Chunk(buf, buf, i, r, r, 0)
  {
    assert buf[i - 0..i] == [];
  }

  /** When nothing is left to write, the chunk holds exactly the digits of r. */
  lemma ChunkDone(buf: string, out: string, i: nat, r: nat, n: nat)
    requires Chunk(buf, out, i, r, 0, n)
    ensures |out| == 40 && n <= i && n <= 19
    ensures out[i..] == buf[i..] && AllZeros(out[..i - n])
    ensures AllDigits(out[i - n..i]) && DecValue(out[i - n..i]) == r
    ensures r > 0 ==> n > 0 && out[i - n] != '0'
  {
  }

  /** The inner loop of String: writes the digits of r into the zeros just
      below position i, least significant first, and counts them in n. */
  method WriteChunk(buf: string, i: nat, r: u64) returns (out: string, n: nat)
    requires |buf| == 40 && i <= 40 && AllZeros(buf[..i])
    requires r < Pow10(i) && r < TEN19
    ensures |out| == 40 && n <= i && n <= 19
    ensures out[i..] == buf[i..] && AllZeros(out[..i - n])
    ensures AllDigits(out[i - n..i]) && DecValue(out[i - n..i]) == r
    ensures r > 0 ==> n > 0 && out[i - n] != '0'
  {
    Pow10Ten19();
    out, n := buf, 0;
    var rest: u64 := r;
    ChunkStart(buf, i, r);
    while rest != 0
      invariant Chunk(buf, out, i, r, rest, n)
      decreases rest
    {
      ChunkNext(buf, out, i, r, rest, n);
      // n++ followed by buf[i-n] += byte(r % 10), written at i - (n + 1)
      out := AddDigit(out, i - n - 1, rest % 10);
      n := n + 1;
      rest := rest / 10;
    }
    ChunkDone(buf, out, i, r, n);
  }

  /** The digits of a chunk, padded with zeros to 19, followed by the
      digits already below position i. */
  lemma WindowValue(buf: string, i: nat, n: nat, r: nat)
    requires |buf| == 40 && 19 <= i <= 40 && n <= 19
    requires AllZeros(buf[..i - n]) && AllDigits(buf[i..])
    requires AllDigits(buf[i - n..i]) && DecValue(buf[i - n..i]) == r
    ensures AllZeros(buf[..i - 19]) && AllDigits(buf[i - 19..])
    ensures DecValue(buf[i - 19..]) == r * Pow10(40 - i) + DecValue(buf[i..])
  {
    var z, d, t := buf[i - 19..i - n], buf[i - n..i], buf[i..];
    assert buf[i - 19..] == (z + d) + t;
    assert AllZeros(z) by {
      forall k | 0 <= k < |z|
        ensures z[k] == '0'
      {
        assert z[k] == buf[..i - n][i - 19 + k];
      }
    }
    var front := buf[..i - 19];
    assert AllZeros(front) by {
      forall k | 0 <= k < |front|
        ensures front[k] == '0'
      {
        assert front[k] == buf[..i - n][k];
      }
    }
    DecValueZeros(z);
    DecValueAppend(z, d);
    assert DecValue(z + d) == r;
    assert |t| == 40 - i;
    DecValueAppend(z + d, t);
  }

  /** Moving the write position down by one 19-digit chunk keeps the value
      accounted for: quotient still to print, times the weight of the new
      position, plus the digits written. */
  lemma ShiftWindow(buf: string, i: nat, n: nat, r: nat, vc: nat, vq: nat, total: nat)
    requires |buf| == 40 && 19 <= i <= 40 && n <= 19
    requires AllZeros(buf[..i - n]) && AllDigits(buf[i..])
    requires AllDigits(buf[i - n..i]) && DecValue(buf[i - n..i]) == r
    requires vc == vq * Pow10(19) + r
    requires total == vc * Pow10(40 - i) + DecValue(buf[i..])
    ensures AllZeros(buf[..i - 19]) && AllDigits(buf[i - 19..])
    ensures total == vq * Pow10(40 - (i - 19)) + DecValue(buf[i - 19..])
  {
    WindowValue(buf, i, n, r);
    Pow10Add(19, 40 - i);
    RegroupChunk(vq, vc, r, Pow10(19), Pow10(40 - i), DecValue(buf[i..]), total);
  }

  /** The state of the outer loop of String at write position i: the
      digits from i to the end, read after the value vc still to print,
      make up total, and the chunk of r sits just below i. */
  ghost predicate Rendered(buf: string, i: nat, n: nat, r: nat, vc: nat, total: nat)
  {
    |buf| == 40 && n <= i <= 40 && n <= 19
    && AllDigits(buf[i..]) && total == vc * Pow10(40 - i) + DecValue(buf[i..])
    && AllZeros(buf[..i - n])
    && AllDigits(buf[i - n..i]) && DecValue(buf[i - n..i]) == r
    && (r > 0 ==> n > 0 && buf[i - n] != '0')
  }

  /** Before anything is written, the whole value is still to print. */
  lemma EmptyTail(buf: string, i: nat, v: nat)
    requires |buf| == 40 && i == 40
    ensures AllDigits(buf[i..]) && v == v * Pow10(40 - i) + DecValue(buf[i..])
  {
    assert buf[i..] == [];
  }

  /** Writing a chunk below position i leaves the outer loop's state. */
  lemma AfterChunk(buf: string, out: string, i: nat, n: nat, r: nat, vc: nat, total: nat)
    requires |buf| == 40 && i <= 40
    requires AllDigits(buf[i..]) && total == vc * Pow10(40 - i) + DecValue(buf[i..])
    requires |out| == 40 && n <= i && n <= 19
    requires out[i..] == buf[i..] && AllZeros(out[..i - n])
    requires AllDigits(out[i - n..i]) && DecValue(out[i - n..i]) == r
    requires r > 0 ==> n > 0 && out[i - n] != '0'
    ensures Rendered(out, i, n, r, vc, total)
  {
  }

  /** One turn of the outer loop: with a non-zero quotient vq still to
      print, the write position moves down 19 places and the value stays
      accounted for. */
  lemma NextWindow(buf: string, i: nat, n: nat, r: nat, vc: nat, vq: nat, total: nat)
    requires Rendered(buf, i, n, r, vc, total) && i >= 1
    requires vc == vq * Pow10(19) + r && vq >= 1 && vc < Pow10(i - 1)
    ensures i >= 20 && vq < Pow10(i - 20)
    ensures AllZeros(buf[..i - 19]) && AllDigits(buf[i - 19..])
    ensures total == vq * Pow10(40 - (i - 19)) + DecValue(buf[i - 19..])
  {
    assert i >= 20 && vq < Pow10(i - 20) by {
      Pow10Below(vq, 19, i - 1);
      Pow10Add(i - 20, 19);
      FactorBelow(vq, Pow10(19), r, Pow10(i - 20));
    }
    ShiftWindow(buf, i, n, r, vc, vq, total);
  }

  /** After the most significant chunk, the digits from its first one to
      the end of the buffer are the canonical decimal of the whole value. */
  lemma FinalChunk(buf: string, i: nat, n: nat, r: nat, vc: nat, total: nat)
    requires Rendered(buf, i, n, r, vc, total) && vc == r && r > 0
    ensures Render(total) == buf[i - n..]
  {
    var s := buf[i - n..];
    assert s == buf[i - n..i] + buf[i..];
    DecValueAppend(buf[i - n..i], buf[i..]);
    CanonicalIsRender(s);
  }

  /** String: "0" for a zero or never-constructed value, otherwise the
      canonical decimal of the value. */
  method String(a: NumberForm) returns (s: string)
    ensures !Valid(a) ==> s == "0"
    ensures Valid(a) ==> s == Render(Value(a))
  {
    if IsZero(a) {
      assert Render(0) == "0";
      return "0";
    } else if !a.parsed {
      return "0";
    }
    Pow10Ten19();
    Pow10Ten39();
    ValueBelow(a);
    Pow10Monotone(19, 40);
    ghost var total := Value(a);
    var buf := seq(40, _ => '0');
    var i := 40;
    var cur := a;
    var qr := QuoRem64(cur, TEN19);
    var q, r := qr.0, qr.1;
    var n;
    EmptyTail(buf, i, total);
    var out;
    out, n := WriteChunk(buf, i, r);
    AfterChunk(buf, out, i, n, r, Value(cur), total);
    buf := out;
    while !IsZero(q)
      invariant 1 <= i <= 40
      invariant Value(cur) == Value(q) * TEN19 + r && Value(cur) >= 1
      invariant Value(cur) < Pow10(i - 1)
      invariant Rendered(buf, i, n, r, Value(cur), total)
      decreases Value(q)
    {
      NextWindow(buf, i, n, r, Value(cur), Value(q), total);
      cur := q;
      i := i - 19;
      Pow10Monotone(i - 1, i);
      qr := QuoRem64(cur, TEN19);
      q, r := qr.0, qr.1;
      out, n := WriteChunk(buf, i, r);
      AfterChunk(buf, out, i, n, r, Value(cur), total);
      buf := out;
    }
    FinalChunk(buf, i, n, r, Value(cur), total);
    s := buf[i - n..];
  }

  /** Rendering a valid value and scanning the text back gives the same
      value, with no error. */
  lemma StringRoundTrip(a: NumberForm)
    requires Valid(a)
    ensures NewNumberForm(Str(Render(Value(a)))) == Made(a, None)
  {
    var t := Render(Value(a));
    ValueBelow(a);
    assert t[0] != '-' && t[0] != '+';
    assert ScanInteger(t) == Some(Value(a) as int);
    var m := NewNumberForm(Str(t));
    HalvesCompareAsValues(a, m.nf);
  }

  /** Scanning a canonical decimal below 2^128 and rendering the result
      gives the text back. */
  lemma ScanRenderRoundTrip(s: string)
    requires IsCanonical(s) && DecValue(s) < TWO128
    ensures NewNumberForm(Str(s)).err.None?
    ensures Valid(NewNumberForm(Str(s)).nf)
    ensures Render(Value(NewNumberForm(Str(s)).nf)) == s
  {
    assert s[0] != '-' && s[0] != '+';
    assert ScanInteger(s) == Some(DecValue(s) as int);
    CanonicalIsRender(s);
  }

  /** A minus sign in front of zero is accepted: the scanned integer is
      zero, whose sign is not negative, so "-0" constructs a valid zero. */
  lemma MinusZeroIsAccepted()
    ensures NewNumberForm(Str("-0")) == Made(NumberForm(0, 0, true), None)
    ensures NewNumberForm(Str("-1")) == Made(ZeroValue, Some(NegativeValue))
    ensures NewNumberForm(Str("+5")) == Made(NumberForm(5, 0, true), None)
  {
    assert "-0"[1..] == "0" && "-1"[1..] == "1" && "+5"[1..] == "5";
    assert ScanInteger("-0") == Some(0);
    assert ScanInteger("-1") == Some(-1);
    assert ScanInteger("+5") == Some(5);
  }
}
