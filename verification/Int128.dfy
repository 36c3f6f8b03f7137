/** The class Int128: its operators update the words lo and hi in place, and each of them is integer
    arithmetic modulo 2^128 on the value.  Operands may be the object itself, as in x += x. */
module Int128s {
  import opened Words
  import opened Int128Numerals
  import opened Int128Text
  import opened Int128Words

  // ---- the arithmetic behind the loops ----

  lemma WrapOfSum(x: int, y: int)
    ensures Wrap128(Wrap128(x) + Wrap128(y)) == Wrap128(x + y)
  {
    var a := Wrap128Congruent(x);
    var b := Wrap128Congruent(y);
    var c := Wrap128Congruent(Wrap128(x) + Wrap128(y));
    Wrap128Unique(x + y, Wrap128(Wrap128(x) + Wrap128(y)), a + b + c);
  }

  lemma WrapInRange(x: int)
    requires -0x8000_0000_0000_0000_0000_0000_0000_0000 <= x < 0x8000_0000_0000_0000_0000_0000_0000_0000
    ensures Wrap128(x) == x
  {
    Wrap128Unique(x, x, 0);
  }

  /** Value halves digit by digit. */
  lemma NextDigit(b: int, i: nat)
    ensures b / Pow2(i + 1) == (b / Pow2(i)) / 2
    ensures b % Pow2(i + 1) == ((b / Pow2(i)) % 2) * Pow2(i) + b % Pow2(i)
  {
    DivDiv(b, Pow2(i), 2);
  }

  /** One round of shift-add multiplication: adding a * 2^i when digit i of b is set. */
  lemma MulRound(a: int, b: int, i: nat, acc: int)
    requires acc == Wrap128(a * (b % Pow2(i)))
    ensures (b / Pow2(i)) % 2 == 1 ==> Wrap128(acc + Wrap128(a * Pow2(i))) == Wrap128(a * (b % Pow2(i + 1)))
    ensures (b / Pow2(i)) % 2 == 0 ==> acc == Wrap128(a * (b % Pow2(i + 1)))
  {
    NextDigit(b, i);
    hide Pow2, Wrap128;
    WrapOfSum(a * (b % Pow2(i)), a * Pow2(i));
    MulAssoc2(b % Pow2(i), Pow2(i), a);
  }

  /** After 128 rounds the product is complete. */
  lemma MulDone(a: int, b: int)
    ensures Wrap128(a * (b % Pow2(128))) == Wrap128(a * b)
  {
    Pow2Words();
    hide Pow2;
    var q, r := b / Pow2(128), b % Pow2(128);
    DivModFacts(b, Pow2(128));
    var k := Wrap128Congruent(a * r);
    MulThree(a, q, Pow2(128));
    MulAssoc2(q * Pow2(128), r, a);
    Wrap128Unique(a * b, Wrap128(a * r), a * q + k);
  }

  class Int128 {
    var lo: uint64
    var hi: int64

    ghost function Val(): (v: int)
      reads this
    {
      Value(lo, hi)
    }

    constructor Small(a: uint64)
      ensures Val() == a
    {
      lo, hi := a, 0;
    }

    constructor Copy(a: Int128)
      ensures lo == a.lo && hi == a.hi
    {
      lo, hi := a.lo, a.hi;
    }

    method Assign(other: Int128)
      modifies this
      ensures lo == old(other.lo) && hi == old(other.hi)
    {
      lo, hi := other.lo, other.hi;
    }

    predicate IsOne()
      reads this
      ensures IsOne() <==> Val() == 1
    {
      hi == 0 && lo == 1
    }

    predicate IsZero()
      reads this
      ensures IsZero() <==> Val() == 0
    {
      !(hi != 0 || lo != 0)
    }

    /** The sign test x < 0. */
    predicate Negative()
      reads this
      ensures Negative() <==> Val() < 0
    {
      SignIsSign(lo, hi);
      Less(lo, hi, 0, 0)
    }

    predicate LessThan(b: Int128)
      reads this, b
      ensures Val() >= 0 || b.Val() >= 0 ==> (LessThan(b) <==> Val() < b.Val())
    {
      LessIsOrderExactly(lo, hi, b.lo, b.hi);
      Less(lo, hi, b.lo, b.hi)
    }

    /** The order of the values, except exactly for two negative ones that share the high word and differ in
        the top bit of the low word. */
    lemma LessThanExactly(b: Int128)
      ensures (LessThan(b) <==> Val() < b.Val()) <==>
              !(hi == b.hi < 0 && (lo < 0x8000_0000_0000_0000) != (b.lo < 0x8000_0000_0000_0000))
    {
      LessIsOrderExactly(lo, hi, b.lo, b.hi);
    }

    predicate Digit(n: nat)
      reads this
      ensures Digit(n) <==> (Val() / Pow2(n)) % 2 == 1
    {
      BitIsDigit(lo, hi, n);
      Bit(lo, hi, n)
    }

    method Negated() returns (r: Int128)
      ensures fresh(r) && r.Val() == Wrap128(-Val())
    {
      r := new Int128.Copy(this);
      if lo == 0 {
        r.lo, r.hi := 0, Signed64(0 - hi);
      } else {
        r.lo, r.hi := Wrap64(0 - lo), -1 - hi;
      }
      NegIsNegation(lo, hi);
    }

    method AddAssign(b: Int128)
      modifies this
      ensures Val() == Wrap128(old(Val()) + old(b.Val()))
    {
      AddIsAddition(lo, hi, b.lo, b.hi);
      var oldLo := lo;
      lo := Wrap64(lo + b.lo);
      hi := Signed64(hi + b.hi);
      if lo < oldLo {
        hi := Signed64(hi + 1);
      }
    }

    method SubAssign(b: Int128)
      modifies this
      ensures Val() == Wrap128(old(Val()) - old(b.Val()))
    {
      var minus := b.Negated();
      WrapOfSum(Val(), -b.Val());
      WrapInRange(Val());
      AddAssign(minus);
    }

    method ShlAssign(n: nat)
      modifies this
      ensures Val() == Wrap128(old(Val()) * Pow2(n))
    {
      hide And, Or, Pow2, Value, Wrap128;
      ShlIsMultiplication(lo, hi, n);
      if n >= 128 {
        lo, hi := 0, 0;
        return;
      }
      if n >= 64 {
        hi := Signed64(lo * Pow2(n - 64));
        lo := 0;
        return;
      }
      if n > 0 {
        hi := Signed64(hi * Pow2(n));
        var mask := Not64(Wrap64(Pow2(64 - n) - 1));
        hi := Signed64(Or(Wrap64(hi), Lsr(And(lo, mask), 64 - n)));
        lo := Wrap64(lo * Pow2(n));
      }
    }

    method ShrAssign(n: nat)
      modifies this
      ensures Val() == old(Val()) / Pow2(n)
    {
      hide And, Or, Pow2, Value;
      ShrIsFloorDivision(lo, hi, n);
      if n >= 128 {
        hi := if hi < 0 then -1 else 0;
        lo := Wrap64(hi);
        return;
      }
      if n >= 64 {
        lo := Wrap64(hi / Pow2(n - 64));
        hi := if hi < 0 then -1 else 0;
        return;
      }
      if n > 0 {
        lo := Lsr(lo, n);
        var mask := Wrap64(Pow2(n) - 1);
        lo := Wrap64(Or(lo, Wrap64(And(Wrap64(hi), mask) * Pow2(64 - n))));
        hi := Signed64(hi / Pow2(n));
      }
    }

    /** x << n. */
    method Shifted(n: nat) returns (r: Int128)
      ensures fresh(r) && r.Val() == Wrap128(Val() * Pow2(n))
    {
      r := new Int128.Copy(this);
      r.ShlAssign(n);
    }

    /** Shift-add multiplication is integer multiplication modulo 2^128. */
    method MulAssign(b: Int128)
      modifies this
      ensures Val() == Wrap128(old(Val()) * old(b.Val()))
    {
      hide Pow2, And, Wrap128, Value;
      if b.IsZero() {
        assert Val() * b.Val() == 0;
        WrapInRange(0);
        lo, hi := 0, 0;
        assert IsZero();
        return;
      }
      if b.IsOne() {
        assert Val() * b.Val() == Val();
        WrapInRange(Val());
        return;
      }
      var a := new Int128.Copy(this);
      var t := new Int128.Copy(b);
      ghost var av, bv := a.Val(), t.Val();
      lo := 0;
      hi := 0;
      assert IsZero();
      MulStart(av, bv);
      for i := 0 to 128
        invariant a.Val() == av && t.Val() == bv / Pow2(i)
        invariant Val() == Wrap128(av * (bv % Pow2(i)))
      {
        MulRound(av, bv, i, Val());
        LowDigitOf(t.lo, t.hi);
        NextDigit(bv, i);
        if And(t.lo, 1) != 0 {
          var s := a.Shifted(i);
          AddAssign(s);
        }
        t.ShrAssign(1);
        PowOne();
      }
      MulDone(av, bv);
    }

    /** bit(n, val). */
    method WriteDigit(n: nat, val: bool)
      modifies this
      ensures Val() ==
              if n >= 128 then old(Val())
              else Wrap128(old(Val()) + Move((old(Val()) / Pow2(n)) % 2, n, val))
    {
      hide Value, Pow2, Or, And, Wrap128;
      SetBitMovesValue(lo, hi, n, val);
      if n >= 128 {
        return;
      }
      if n < 64 {
        lo := WriteBit(lo, n, val);
      } else {
        hi := Signed64(WriteBit(Wrap64(hi), n - 64, val));
      }
    }

    /** r <<= 1, then the given digit into the place that became free. */
    method ShiftIn(digit: bool)
      requires 0 <= Val() && 2 * Val() + 1 < 0x8000_0000_0000_0000_0000_0000_0000_0000
      modifies this
      ensures Val() == 2 * old(Val()) + if digit then 1 else 0
    {
      ghost var v := Val();
      PowOne();
      hide Pow2, Or, Value, Wrap128;
      ShlAssign(1);
      WrapInRange(2 * v);
      if digit {
        LowDigitFree(lo, hi);
        lo := Or(lo, 1);
      }
    }

    method Absolute() returns (r: Int128)
      ensures fresh(r)
      ensures Val() != -0x8000_0000_0000_0000_0000_0000_0000_0000 ==> r.Val() == Abs(Val())
      ensures Val() == -0x8000_0000_0000_0000_0000_0000_0000_0000 ==> r.Val() == Val()
    {
      if Negative() {
        r := Negated();
        AbsOfMin(Val());
      } else {
        r := new Int128.Copy(this);
      }
    }

    /** Truncating division by bits.  A dividend of -2^127 comes back as the remainder; a divisor of
        -2^127 would keep the second loop running for ever, and zero is a division by zero. */
    method Div(divisor: Int128, remainder: Int128) returns (quotient: Int128)
      requires divisor.Val() != 0 && divisor.Val() != -0x8000_0000_0000_0000_0000_0000_0000_0000
      modifies remainder
      ensures fresh(quotient)
      ensures IsTruncatedDivision(old(Val()), old(divisor.Val()), quotient.Val(), remainder.Val()) <==>
              old(Val()) != -0x8000_0000_0000_0000_0000_0000_0000_0000
      ensures old(Val()) == -0x8000_0000_0000_0000_0000_0000_0000_0000 ==>
        quotient.Val() == 0 && remainder.Val() == old(Val())
    {
      hide Value, Less, Wrap128, Times;
      var ds := divisor.Absolute();
      var dd := Absolute();
      if dd.LessThan(ds) {
        remainder.Assign(this);
        quotient := new Int128.Small(0);
        if Val() == -0x8000_0000_0000_0000_0000_0000_0000_0000 {
          MinIsNoRemainder(divisor.Val());
        }
        return;
      }
      var q, r := LongDivide(dd, ds);
      CorrectSigns(Val(), divisor.Val(), q.Val(), r.Val());
      quotient := q;
      if divisor.Negative() != Negative() {
        quotient := q.Negated();
      }
      if Negative() {
        r := r.Negated();
      }
      remainder.Assign(r);
    }

    static method LongDivide(dd: Int128, ds: Int128) returns (q: Int128, r: Int128)
      requires 0 < ds.Val() <= dd.Val()
      ensures fresh(q) && fresh(r) && q != r
      ensures dd.Val() == Times(q.Val(), ds.Val()) + r.Val() && 0 <= r.Val() < ds.Val() && 0 <= q.Val()
    {
      var b;
      r, b := Align(dd, ds);
      q := new Int128.Small(0);
      AlignedIsPartial(dd.Val(), ds.Val(), r.Val(), b);
      hide Pow2, Value, Less, Bit, Wrap128, PartialDivision, Times;
      while true
        invariant 0 <= b <= 127 && PartialDivision(dd.Val(), ds.Val(), q.Val(), r.Val(), b) && 0 <= r.Val()
        decreases b, if r.Val() < ds.Val() then 0 else 1
        modifies q, r
      {
        if r.LessThan(ds) {
          if b == 0 {
            LastDigit(dd.Val(), ds.Val(), q.Val(), r.Val());
            b := 0xFFFF_FFFF;
            break;
          }
          b := b - 1;
          NextPartial(dd.Val(), ds.Val(), q.Val(), r.Val(), b + 1);
          r.ShiftIn(dd.Digit(b));
        } else {
          TakeDivisor(ds, q, r, b, dd.Val());
        }
      }
    }

    static method TakeDivisor(ds: Int128, q: Int128, r: Int128, b: uint32, ghost d: int)
      requires ds != q && q != r && ds != r && b <= 127
      requires PartialDivision(d, ds.Val(), q.Val(), r.Val(), b) && r.Val() >= ds.Val()
      modifies q, r
      ensures PartialDivision(d, ds.Val(), q.Val(), r.Val(), b) && 0 <= r.Val() < ds.Val()
    {
      ghost var q0, r0 := q.Val(), r.Val();
      SubtractPartial(d, ds.Val(), q0, r0, b);
      SubtractFits(d, ds.Val(), q0, r0, b);
      hide Pow2, Value, PartialDivision, Wrap128, Move;
      r.SubAssign(ds);
      q.WriteDigit(b, true);
    }

    /** this /= b; the remainder is dropped. */
    method DivAssign(b: Int128) returns (ghost r: int)
      requires b.Val() != 0 && b.Val() != -0x8000_0000_0000_0000_0000_0000_0000_0000
      modifies this
      ensures old(Val()) != -0x8000_0000_0000_0000_0000_0000_0000_0000 ==>
        IsTruncatedDivision(old(Val()), old(b.Val()), Val(), r)
      ensures old(Val()) == -0x8000_0000_0000_0000_0000_0000_0000_0000 ==> Val() == 0
    {
      var dummy := new Int128.Small(0);
      var q := Div(b, dummy);
      r := dummy.Val();
      Assign(q);
    }

    /** this %= b; the object itself takes the remainder. */
    method ModAssign(b: Int128) returns (ghost q: int)
      requires b.Val() != 0 && b.Val() != -0x8000_0000_0000_0000_0000_0000_0000_0000
      modifies this
      ensures old(Val()) != -0x8000_0000_0000_0000_0000_0000_0000_0000 ==>
        IsTruncatedDivision(old(Val()), old(b.Val()), q, Val())
      ensures old(Val()) == -0x8000_0000_0000_0000_0000_0000_0000_0000 ==> Val() == old(Val())
    {
      var quotient := Div(b, this);
      q := quotient.Val();
    }

    /** The text of the value: its numeral in the radix, with a minus sign before it when it is negative. */
    method ToString(radix: uint32) returns (sz: string)
      ensures sz == Text(Val(), radix)
      ensures Val() == 0 ==> sz == "0"
      ensures Val() != 0 && !(2 <= radix <= 37) ==> sz == "(invalid radix)"
      ensures Val() == -0x8000_0000_0000_0000_0000_0000_0000_0000 && 2 <= radix <= 37 ==> sz == "-0"
      ensures Val() != 0 && Val() != -0x8000_0000_0000_0000_0000_0000_0000_0000 && 2 <= radix <= 37 ==>
        IsText(sz, radix, Val())
    {
      hide Digits, Value, IsText;
      if IsZero() {
        return "0";
      }
      if radix < 2 || radix > 37 {
        return "(invalid radix)";
      }
      sz := CollectDigits(radix);
      if Negative() {
        sz := "-" + sz;
      }
      if Val() != -0x8000_0000_0000_0000_0000_0000_0000_0000 {
        TextIsNumeral(Val(), radix);
      }
    }

    /** Divides until nothing is left; the buffer of 255 characters is never exhausted. */
    method CollectDigits(radix: uint32) returns (sz: string)
      requires Val() != 0 && 2 <= radix <= 37
      ensures sz == if Val() == -0x8000_0000_0000_0000_0000_0000_0000_0000 then "0" else Digits(Abs(Val()), radix)
    {
      hide Digits, Value, Pow2;
      ghost var v := Val();
      var r := new Int128.Small(0);
      var ii := Absolute();
      var i: nat := 255;
      var aux := new Int128.Small(radix);
      sz := "";
      DigitsFit(v);
      while !ii.IsZero() && i > 0
        invariant |sz| == 255 - i && aux.Val() == radix && ii != r
        invariant v == -0x8000_0000_0000_0000_0000_0000_0000_0000 ==>
          if i == 255 then ii.Val() == v else ii.Val() == 0 && sz == "0"
        invariant v != -0x8000_0000_0000_0000_0000_0000_0000_0000 ==>
          0 <= ii.Val() && Digits(ii.Val(), radix) + sz == Digits(Abs(v), radix)
        invariant v != -0x8000_0000_0000_0000_0000_0000_0000_0000 ==> 128 <= i && ii.Val() < Pow2(i - 128)
        decreases i
        modifies r
      {
        ghost var n := ii.Val();
        var c;
        ii, c := ii.NextChar(aux, r, radix);
        i := i - 1;
        if n > 0 {
          NextText(n, radix, i + 1 - 128);
          assert Digits(n / radix, radix) + ([c] + sz) == Digits(n, radix) + sz;
        }
        sz := [c] + sz;
      }
      NoDigitsLeft(radix);
      assert "" + sz == sz;
    }

    method NextChar(aux: Int128, r: Int128, radix: uint32) returns (q: Int128, c: char)
      requires aux.Val() == radix && 2 <= radix <= 37 && aux != r && this != r
      requires Val() > 0 || Val() == -0x8000_0000_0000_0000_0000_0000_0000_0000
      modifies r
      ensures fresh(q)
      ensures Val() > 0 ==> q.Val() == Val() / radix && 0 <= Val() % radix < radix && c == DigitChar(Val() % radix)
      ensures Val() == -0x8000_0000_0000_0000_0000_0000_0000_0000 ==> q.Val() == 0 && c == '0'
    {
      hide Value, IsTruncatedDivision;
      ghost var n := Val();
      q := Div(aux, r);
      if n > 0 {
        Quotients(n, radix, q.Val(), r.Val());
        SmallWords(r.lo, r.hi);
      } else {
        MinWords(r.lo, r.hi);
      }
      c := DigitChar(r.lo % 0x1_0000_0000);
    }

    /** Reads a text; the result is the number read, modulo 2^128. */
    method Set(sz: string)
      modifies this
      ensures Val() == Wrap128(Parse(sz))
      ensures forall minus, radix, digits, rest | IsReading(sz, minus, radix, digits, rest) ::
        Val() == Wrap128(NumberRead(minus, radix, digits))
    {
      AllReadingsArePositional(sz);
      hide IsReading, NumberRead;
      lo := 0;
      hi := 0;
      WrapInRange(0);
      assert IsZero();
      hide Wrap128, Value, Accumulate;
      if sz == "" {
        NothingRead();
        return;
      }
      var i := 0;
      var minus := false;
      if sz[i] == '-' {
        i := i + 1;
        minus := true;
      }
      ghost var t := sz[i..];
      var radix;
      radix, i := SkipPrefix(sz, i);
      ReadDigits(sz, i, radix);
      if minus {
        Flip();
        WrapOfNegation(Accumulate(sz[i..], radix, 0));
      }
    }

    static method SkipPrefix(sz: string, start: nat) returns (radix: nat, i: nat)
      requires start <= |sz|
      ensures start <= i <= |sz| && (radix == 8 || radix == 10 || radix == 16)
      ensures sz[i..] == sz[start..][Prefix(sz[start..]).0..] && radix == Prefix(sz[start..]).1
    {
      radix := 10;
      i := start;
      if i < |sz| && sz[i] == '0' {
        radix := 8;
        i := i + 1;
        if i < |sz| && sz[i] == 'x' {
          radix := 16;
          i := i + 1;
        }
      }
    }

    /** *this = Int128(0) - *this. */
    method Flip()
      modifies this
      ensures Val() == Wrap128(0 - old(Val()))
    {
      var zero := new Int128.Small(0);
      zero.SubAssign(this);
      Assign(zero);
    }

    method ReadDigits(sz: string, start: nat, radix: nat)
      requires Val() == 0 && start <= |sz| && (radix == 8 || radix == 10 || radix == 16)
      modifies this
      ensures Val() == Wrap128(Accumulate(sz[start..], radix, 0))
    {
      hide Wrap128, Value;
      ghost var acc: nat := 0;
      WrapInRange(0);
      var i := start;
      while i < |sz|
        invariant start <= i <= |sz|
        invariant Val() == Wrap128(acc)
        invariant Accumulate(sz[i..], radix, acc) == Accumulate(sz[start..], radix, 0)
      {
        var digit := DigitValue(sz[i], radix);
        assert sz[i..][1..] == sz[i + 1..];
        if digit.None? {
          return;
        }
        var n := digit.value;
        WrapOfRound(acc, radix, n);
        var base := new Int128.Small(radix);
        MulAssign(base);
        var next := new Int128.Small(n);
        AddAssign(next);
        acc := acc * radix + n;
        i := i + 1;
      }
    }

    /** Shifts in the leading digits of dd until they reach ds. */
    static method Align(dd: Int128, ds: Int128) returns (r: Int128, b: uint32)
      requires 0 < ds.Val() <= dd.Val()
      ensures fresh(r) && b <= 127
      ensures ds.Val() <= r.Val() == dd.Val() / Pow2(b) < 2 * ds.Val()
    {
      r := new Int128.Small(0);
      b := 127;
      ghost var m: int := 127;
      NoDigits(dd.Val());
      hide Pow2, Value, Less, Bit, Wrap128;
      while r.LessThan(ds)
        invariant -1 <= m <= 127 && b == (if m == -1 then 0xFFFF_FFFF else m)
        invariant 0 <= r.Val() == dd.Val() / Pow2(m + 1) < 2 * ds.Val()
        decreases m
        modifies r
      {
        NoShift(dd.Val(), m + 1);
        NextDigit(dd.Val(), m);
        QuotientAtMost(dd.Val(), m);
        r.ShiftIn(dd.Digit(b));
        b := if b == 0 then 0xFFFF_FFFF else b - 1;
        m := m - 1;
      }
      b := if b == 0xFFFF_FFFF then 0 else b + 1;
    }
  }

  /** A product the solver does not look into. */
  function Times(a: int, b: int): int {
    a * b
  }

  /** The leading 128 - b digits of d have been divided by s: q holds the quotient in its high digits,
      r the remainder, which may still be one subtraction away. */
  ghost predicate PartialDivision(d: int, s: int, q: int, r: int, b: nat) {
    && 0 < s && 0 <= d < 0x8000_0000_0000_0000_0000_0000_0000_0000 && 0 <= q && 0 <= r < 2 * s
    && Times(q, s) + Times(r, Pow2(b)) + d % Pow2(b) == d
    && q % Pow2(b) == 0 && (r >= s ==> q % Pow2(b + 1) == 0)
  }

  lemma NoDigits(d: int)
    requires 0 <= d < 0x8000_0000_0000_0000_0000_0000_0000_0000
    ensures d / Pow2(128) == 0
  {
    Pow2Words();
  }

  lemma NoShift(d: int, n: nat)
    ensures n == 0 ==> d / Pow2(n) == d
  {
  }

  lemma MulGrows(q: int, p: int)
    requires q >= 0 && p >= 1
    ensures Times(q, p) >= q && Times(q, p) == q * p
  {
  }

  lemma QuotientAtMost(d: int, m: int)
    requires 0 <= d && m >= 0
    ensures 0 <= d / Pow2(m) <= d
  {
    DivModFacts(d, Pow2(m));
    hide Pow2, Times;
    MulGrows(d / Pow2(m), Pow2(m));
  }

  lemma AlignedIsPartial(d: int, s: int, r: int, b: nat)
    requires 0 < s && 0 <= d < 0x8000_0000_0000_0000_0000_0000_0000_0000 && r == d / Pow2(b) && 0 <= r < 2 * s
    ensures PartialDivision(d, s, 0, r, b)
  {
    DivModFacts(d, Pow2(b));
    hide Pow2;
    DivModUnique(0, Pow2(b), 0, 0);
    DivModUnique(0, Pow2(b + 1), 0, 0);
    assert Times(0, s) == 0;
  }

  /** Bringing down the next digit. */
  lemma NextPartial(d: int, s: int, q: int, r: int, b: nat)
    requires PartialDivision(d, s, q, r, b) && r < s && b > 0
    ensures var r' := 2 * r + (if (d / Pow2(b - 1)) % 2 == 1 then 1 else 0);
      PartialDivision(d, s, q, r', b - 1) && r' <= d
  {
    assert Pow2(b) == 2 * Pow2(b - 1);
    NextDigitTimes(d, b - 1);
    StillMultiple(q, b - 1);
    DivModFacts(d, Pow2(b - 1));
    hide Pow2, Times;
    var p, dig := Pow2(b - 1), (d / Pow2(b - 1)) % 2;
    BringDown(r, p, dig);
    MulGrows(2 * r + dig, p);
    MulGrows(q, s);
  }

  lemma NextDigitTimes(d: int, i: nat)
    ensures d % Pow2(i + 1) == Times((d / Pow2(i)) % 2, Pow2(i)) + d % Pow2(i)
  {
    NextDigit(d, i);
  }

  lemma StillMultiple(q: int, i: nat)
    requires q >= 0 && q % Pow2(i + 1) == 0
    ensures q % Pow2(i) == 0 && (q / Pow2(i)) % 2 == 0
  {
    NextDigitTimes(q, i);
    DivModFacts(q, Pow2(i));
    hide Pow2, Times;
    MulGrows((q / Pow2(i)) % 2, Pow2(i));
  }

  lemma BringDown(r: int, p: int, dig: int)
    ensures Times(r, 2 * p) + Times(dig, p) == Times(2 * r + dig, p)
  {
    MulAssoc2(2 * r, dig, p);
    DoubleProduct(r, p);
    MulThree(2, r, p);
  }

  /** Subtracting the divisor sets the quotient digit, which was clear. */
  lemma SubtractPartial(d: int, s: int, q: int, r: int, b: nat)
    requires PartialDivision(d, s, q, r, b) && r >= s
    ensures (q / Pow2(b)) % 2 == 0 && q + Pow2(b) <= d
    ensures Wrap128(q + Move(0, b, true)) == q + Pow2(b) && Wrap128(r - s) == r - s
    ensures PartialDivision(d, s, q + Pow2(b), r - s, b)
  {
    StillMultiple(q, b);
    DivModFacts(d, Pow2(b));
    hide Pow2, Wrap128, Times;
    SubtractKeeps(q, r, s, Pow2(b));
    MulGrows(q + Pow2(b), s);
    MulGrows(r, Pow2(b));
    MulGrows(r - s, Pow2(b));
    MulGrows(q, s);
    StaysMultiple(q, Pow2(b));
    WrapInRange(q + Pow2(b));
    WrapInRange(r - s);
  }

  lemma SubtractFits(d: int, s: int, q: int, r: int, b: nat)
    requires PartialDivision(d, s, q, r, b) && r >= s
    ensures 0 <= r - s < s
  {
  }

  lemma SubtractKeeps(q: int, r: int, s: int, p: int)
    ensures Times(q + p, s) + Times(r - s, p) == Times(q, s) + Times(r, p)
  {
    MulAssoc2(q, p, s);
    MulAssoc2(r - s, s, p);
  }

  lemma StaysMultiple(q: int, p: int)
    requires p > 0 && q % p == 0
    ensures (q + p) % p == 0
  {
    DivModFacts(q, p);
    MulAssoc2(q / p, 1, p);
    DivModUnique(q + p, p, q / p + 1, 0);
  }

  lemma LastDigit(d: int, s: int, q: int, r: int)
    requires PartialDivision(d, s, q, r, 0)
    ensures d == Times(q, s) + r
  {
  }

  lemma CorrectSigns(x: int, d: int, q: int, r: int)
    requires Abs(x) == Times(q, Abs(d)) + r && 0 <= r < Abs(d) && 0 <= q && d != 0
    requires Abs(x) < 0x8000_0000_0000_0000_0000_0000_0000_0000 && Abs(d) < 0x8000_0000_0000_0000_0000_0000_0000_0000
    ensures Wrap128(-q) == -q && Wrap128(-r) == -r
    ensures IsTruncatedDivision(x, d, if (d < 0) != (x < 0) then -q else q, if x < 0 then -r else r)
  {
    MulGrows(q, Abs(d));
    WrapInRange(-q);
    WrapInRange(-r);
    hide Wrap128;
    SignedProduct(q, d);
  }

  lemma SignedProduct(q: int, d: int)
    ensures Times(q, Abs(d)) == if d < 0 then (-q) * d else q * d
    ensures (-q) * d == -(q * d)
  {
  }

  lemma PowOne()
    ensures Pow2(0) == 1 && Pow2(1) == 2
  {
  }

  lemma MulStart(a: int, b: int)
    ensures b == b / Pow2(0) && Wrap128(a * (b % Pow2(0))) == 0
  {
  }

  lemma LowDigitOf(lo: uint64, hi: int64)
    ensures And(lo, 1) != 0 <==> Value(lo, hi) % 2 == 1
  {
    BitIsDigit(lo, hi, 0);
  }

  /** The remainder after some rounds of the second division loop when the divisor is -2^127. */
  ghost function RemainderByMin(rounds: nat): int {
    if rounds == 0 then 0 else Wrap128(RemainderByMin(rounds - 1) - (-0x8000_0000_0000_0000_0000_0000_0000_0000))
  }

  /** The dividend -2^127 is no remainder of a truncated division: it is as large as the divisor. */
  lemma MinIsNoRemainder(d: int)
    requires -0x8000_0000_0000_0000_0000_0000_0000_0000 <= d < 0x8000_0000_0000_0000_0000_0000_0000_0000
    ensures !IsTruncatedDivision(-0x8000_0000_0000_0000_0000_0000_0000_0000, d, 0,
                                 -0x8000_0000_0000_0000_0000_0000_0000_0000)
  {
  }

  /** Division by -2^127: its magnitude is taken for -2^127 again, and for no dividend the early return of
      a divisor greater than the dividend is taken. */
  lemma DivisionByMinGoesOn(lo: uint64, hi: int64)
    ensures Neg(0, -0x8000_0000_0000_0000) == (0, -0x8000_0000_0000_0000)
    ensures var (alo, ahi) := if Less(lo, hi, 0, 0) then Neg(lo, hi) else (lo, hi);
      !Less(alo, ahi, 0, -0x8000_0000_0000_0000)
  {
    SignIsSign(lo, hi);
  }

  /** Division by -2^127: the remainder is never less than the divisor, so the loop is never left. */
  lemma {:induction false} DivisionByMinNeverEnds(rounds: nat, lo: uint64, hi: int64)
    requires Value(lo, hi) == RemainderByMin(rounds)
    ensures !Less(lo, hi, 0, -0x8000_0000_0000_0000)
  {
    RemainderByMinAlternates(rounds);
    LessIsOrderExactly(lo, hi, 0, -0x8000_0000_0000_0000);
    ValueInjective(lo, hi, 0, if RemainderByMin(rounds) == 0 then 0 else -0x8000_0000_0000_0000);
  }

  lemma {:induction false} RemainderByMinAlternates(rounds: nat)
    ensures RemainderByMin(rounds) == 0 || RemainderByMin(rounds) == -0x8000_0000_0000_0000_0000_0000_0000_0000
  {
    if rounds > 0 {
      RemainderByMinAlternates(rounds - 1);
      if RemainderByMin(rounds - 1) == 0 {
        Wrap128Unique(0x8000_0000_0000_0000_0000_0000_0000_0000, -0x8000_0000_0000_0000_0000_0000_0000_0000, 1);
      } else {
        WrapInRange(0);
      }
    }
  }

  /** Quotient and remainder of a truncated division are the only ones. */
  lemma TruncatedDivisionUnique(x: int, d: int, q: int, r: int, q': int, r': int)
    requires IsTruncatedDivision(x, d, q, r) && IsTruncatedDivision(x, d, q', r')
    ensures q == q' && r == r'
  {
    var k := q - q';
    assert k * d == r' - r;
    if k != 0 {
      SignedAtLeast(k, d);
    }
  }

  lemma SignedAtLeast(k: int, d: int)
    requires k != 0
    ensures Abs(k * d) >= Abs(d)
  {
    if k > 0 {
      MulGrows(Abs(d), k);
    } else {
      MulGrows(Abs(d), -k);
    }
  }

  lemma WrapOfRound(acc: int, radix: int, n: nat)
    ensures Wrap128(Wrap128(Wrap128(acc) * radix) + n) == Wrap128(acc * radix + n)
  {
    var k := Wrap128Congruent(acc);
    var m := Wrap128Congruent(Wrap128(acc) * radix);
    var p := Wrap128Congruent(Wrap128(Wrap128(acc) * radix) + n);
    hide Wrap128;
    MulAssoc2(Wrap128(acc), k * 0x1_0000_0000_0000_0000_0000_0000_0000_0000, radix);
    MulThree(k, radix, 0x1_0000_0000_0000_0000_0000_0000_0000_0000);
    Wrap128Unique(acc * radix + n, Wrap128(Wrap128(Wrap128(acc) * radix) + n), k * radix + m + p);
  }

  lemma WrapOfNegation(v: int)
    ensures Wrap128(0 - Wrap128(v)) == Wrap128(-v)
  {
    var k := Wrap128Congruent(v);
    var m := Wrap128Congruent(0 - Wrap128(v));
    Wrap128Unique(-v, Wrap128(0 - Wrap128(v)), m - k);
  }

  lemma NothingRead()
    ensures Accumulate("", 10, 0) == 0
  {
  }

  lemma DigitsFit(v: int)
    requires -0x8000_0000_0000_0000_0000_0000_0000_0000 <= v < 0x8000_0000_0000_0000_0000_0000_0000_0000
    ensures v != -0x8000_0000_0000_0000_0000_0000_0000_0000 ==> Abs(v) < Pow2(127)
  {
    Pow2Words();
  }

  lemma NoDigitsLeft(radix: nat)
    requires 2 <= radix <= 37
    ensures Digits(0, radix) == ""
  {
  }

  lemma NextText(n: nat, radix: nat, k: nat)
    requires n > 0 && 2 <= radix <= 37 && n < Pow2(k)
    ensures k > 0 && 0 <= n / radix < Pow2(k - 1) && 0 <= n % radix < radix
    ensures Digits(n, radix) == Digits(n / radix, radix) + [DigitChar(n % radix)]
  {
    Shrinks(n, radix);
  }

  lemma Quotients(n: int, radix: nat, q: int, r: int)
    requires n > 0 && radix >= 2 && IsTruncatedDivision(n, radix, q, r)
    ensures q == n / radix && r == n % radix && 0 <= r < radix
  {
    DivModFacts(n, radix);
    assert IsTruncatedDivision(n, radix, n / radix, n % radix);
    TruncatedDivisionUnique(n, radix, q, r, n / radix, n % radix);
  }

  lemma SmallWords(lo: uint64, hi: int64)
    requires 0 <= Value(lo, hi) < 37
    ensures lo % 0x1_0000_0000 == Value(lo, hi)
  {
  }

  lemma MinWords(lo: uint64, hi: int64)
    requires Value(lo, hi) == -0x8000_0000_0000_0000_0000_0000_0000_0000
    ensures lo == 0
  {
    ValueInjective(lo, hi, 0, -0x8000_0000_0000_0000);
  }

  type uint32 = x: int | 0 <= x < 0x1_0000_0000

  function Abs(x: int): (a: nat)
    ensures a == x || a == -x
  {
    if x < 0 then -x else x
  }

  /** q and r divide x by d the way C++ does: towards zero, the remainder with the sign of x. */
  ghost predicate IsTruncatedDivision(x: int, d: int, q: int, r: int) {
    x == q * d + r && Abs(r) < Abs(d) && (r == 0 || (r < 0 <==> x < 0))
  }

  lemma SignIsSign(lo: uint64, hi: int64)
    ensures Less(lo, hi, 0, 0) <==> Value(lo, hi) < 0
  {
    LessIsOrderExactly(lo, hi, 0, 0);
  }

  lemma AbsOfMin(v: int)
    requires -0x8000_0000_0000_0000_0000_0000_0000_0000 <= v < 0
    ensures v != -0x8000_0000_0000_0000_0000_0000_0000_0000 ==> Wrap128(-v) == -v
    ensures v == -0x8000_0000_0000_0000_0000_0000_0000_0000 ==> Wrap128(-v) == v
  {
    if v == -0x8000_0000_0000_0000_0000_0000_0000_0000 {
      Wrap128Unique(-v, v, 1);
    } else {
      WrapInRange(-v);
    }
  }

  lemma LowDigitFree(lo: uint64, hi: int64)
    requires Value(lo, hi) % 2 == 0
    ensures Or(lo, 1) < 0x1_0000_0000_0000_0000 && Value(Or(lo, 1), hi) == Value(lo, hi) + 1
  {
    PowOne();
    assert lo % 2 == 0;
    OrDisjoint(lo / 2, 1, 1);
  }

  /** What Set makes of the text ToString wrote: the value itself, except for -2^127 in decimal and for
      negative values in hexadecimal. */
  lemma TextRoundTripExactly(v: int)
    requires -0x8000_0000_0000_0000_0000_0000_0000_0000 <= v < 0x8000_0000_0000_0000_0000_0000_0000_0000
    ensures Wrap128(Parse(Text(v, 10))) == v <==> v != -0x8000_0000_0000_0000_0000_0000_0000_0000
    ensures Wrap128(Parse("0x" + Text(v, 16))) == v <==> v >= 0
  {
    DecimalRoundTripExactly(v);
    HexRoundTripExactly(v);
    WrapInRange(v);
    WrapInRange(0);
  }
}
