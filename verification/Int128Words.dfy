/** The two-word representation of Int128: what each operator does to the words lo and hi, and that
    this is integer arithmetic modulo 2^128 on the value hi * 2^64 + lo. */
module Int128Words {
  import opened Words

  function Value(lo: uint64, hi: int64): (v: int)
    ensures -0x8000_0000_0000_0000_0000_0000_0000_0000 <= v < 0x8000_0000_0000_0000_0000_0000_0000_0000
  {
    hi * 0x1_0000_0000_0000_0000 + lo
  }

  /** Two word pairs with the same value are the same. */
  lemma ValueInjective(lo: uint64, hi: int64, lo': uint64, hi': int64)
    requires Value(lo, hi) == Value(lo', hi')
    ensures lo == lo' && hi == hi'
  {
  }

  /** operator+=: add both words, then carry if the low word wrapped. */
  function Add(alo: uint64, ahi: int64, blo: uint64, bhi: int64): (uint64, int64) {
    var lo, hi := Wrap64(alo + blo), Signed64(ahi + bhi);
    (lo, if lo < alo then Signed64(hi + 1) else hi)
  }

  lemma AddIsAddition(alo: uint64, ahi: int64, blo: uint64, bhi: int64)
    ensures var (lo, hi) := Add(alo, ahi, blo, bhi);
      Value(lo, hi) == Wrap128(Value(alo, ahi) + Value(blo, bhi))
  {
    var (lo, hi) := Add(alo, ahi, blo, bhi);
    var c := if lo < alo then 1 else 0;
    assert alo + blo == lo + c * 0x1_0000_0000_0000_0000;
    var k := Signed64Congruent(ahi + bhi);
    var m := Signed64Congruent(Signed64(ahi + bhi) + c);
    Wrap128Unique(Value(alo, ahi) + Value(blo, bhi), Value(lo, hi), k + m);
  }

  /** Unary minus. */
  function Neg(lo: uint64, hi: int64): (uint64, int64) {
    if lo == 0 then (0, Signed64(0 - hi)) else (Wrap64(0 - lo), -1 - hi)
  }

  lemma NegIsNegation(lo: uint64, hi: int64)
    ensures Value(Neg(lo, hi).0, Neg(lo, hi).1) == Wrap128(-Value(lo, hi))
  {
    if lo == 0 {
      var k := Signed64Congruent(0 - hi);
      Wrap128Unique(-Value(lo, hi), Value(0, Signed64(0 - hi)), k);
    } else {
      assert Wrap64(0 - lo) == 0x1_0000_0000_0000_0000 - lo;
      Wrap128Unique(-Value(lo, hi), Value(0x1_0000_0000_0000_0000 - lo, -1 - hi), 0);
    }
  }

  /** operator<, as coded: with equal negative high words the low words are compared as signed. */
  predicate Less(alo: uint64, ahi: int64, blo: uint64, bhi: int64) {
    if ahi == bhi then
      if ahi < 0 then Signed64(alo) < Signed64(blo) else alo < blo
    else ahi < bhi
  }

  /** Exactly when operator< orders two values as integers. */
  lemma LessIsOrderExactly(alo: uint64, ahi: int64, blo: uint64, bhi: int64)
    ensures (Less(alo, ahi, blo, bhi) <==> Value(alo, ahi) < Value(blo, bhi))
      <==> !(ahi == bhi < 0 && (alo < 0x8000_0000_0000_0000) != (blo < 0x8000_0000_0000_0000))
  {
    if ahi < bhi {
      assert (ahi + 1) * 0x1_0000_0000_0000_0000 <= bhi * 0x1_0000_0000_0000_0000;
    } else if bhi < ahi {
      assert (bhi + 1) * 0x1_0000_0000_0000_0000 <= ahi * 0x1_0000_0000_0000_0000;
    }
  }

  /** operator<<=. */
  function Shl(lo: uint64, hi: int64, n: nat): (uint64, int64) {
    if n >= 128 then (0, 0)
    else if n >= 64 then (0, Signed64(lo * Pow2(n - 64)))
    else if n > 0 then
      var mask := Not64(Wrap64(Pow2(64 - n) - 1));
      var high := Signed64(hi * Pow2(n));
      (Wrap64(lo * Pow2(n)), Signed64(Or(Wrap64(high), Lsr(And(lo, mask), 64 - n))))
    else (lo, hi)
  }

  /** operator>>=, the shift of the signed high word being arithmetic. */
  function Shr(lo: uint64, hi: int64, n: nat): (uint64, int64) {
    var sign: int64 := if hi < 0 then -1 else 0;
    if n >= 128 then (Wrap64(sign), sign)
    else if n >= 64 then (Wrap64(hi / Pow2(n - 64)), sign)
    else if n > 0 then
      var mask := Wrap64(Pow2(n) - 1);
      (Wrap64(Or(Lsr(lo, n), Wrap64(And(Wrap64(hi), mask) * Pow2(64 - n)))), Signed64(hi / Pow2(n)))
    else (lo, hi)
  }

  /** A word cut in two at digit `m`: the powers involved and the parts' bounds. */
  lemma CutWord(w: int, m: nat)
    requires m <= 64
    ensures Pow2(m) * Pow2(64 - m) == 0x1_0000_0000_0000_0000 && 1 <= Pow2(m) <= 0x1_0000_0000_0000_0000
    ensures w == (w / Pow2(m)) * Pow2(m) + w % Pow2(m)
    ensures 0 <= w < 0x1_0000_0000_0000_0000 ==> 0 <= w / Pow2(m) < Pow2(64 - m)
  {
    Pow2Words();
    Pow2Add(m, 64 - m);
    hide Pow2;
    MulAtLeast(Pow2(64 - m), Pow2(m));
    var q := w / Pow2(m);
    DivModFacts(w, Pow2(m));
    if 0 <= w < 0x1_0000_0000_0000_0000 {
      QuotientBound(q, Pow2(m), Pow2(64 - m), w);
    }
  }

  lemma QuotientBound(q: int, a: int, b: int, w: int)
    requires a > 0 && 0 <= q && q * a <= w < a * b
    ensures q < b
  {
    if q >= b {
      MulMonotone(b, q, a);
    }
  }

  /** (w * 2^n) mod 2^64 keeps the low digits of w. */
  lemma ShiftedWord(w: int, n: nat)
    requires n <= 64
    ensures w * Pow2(n) == (w / Pow2(64 - n)) * 0x1_0000_0000_0000_0000 + (w % Pow2(64 - n)) * Pow2(n)
    ensures 0 <= (w % Pow2(64 - n)) * Pow2(n) <= 0x1_0000_0000_0000_0000 - Pow2(n)
    ensures Wrap64(w * Pow2(n)) == (w % Pow2(64 - n)) * Pow2(n)
  {
    CutWord(w, 64 - n);
    var P, N := Pow2(64 - n), Pow2(n);
    MulAssoc(w / P, P, w % P, N);
    MulBound(w % P, P, N);
    DivModUnique(w * N, 0x1_0000_0000_0000_0000, w / P, (w % P) * N);
  }

  lemma Wrap64OfSigned(x: int)
    ensures Wrap64(Signed64(x)) == Wrap64(x)
  {
    var k := Signed64Congruent(x);
    assert x % 0x1_0000_0000_0000_0000 == Signed64(x) % 0x1_0000_0000_0000_0000;
  }

  /** The words of a shift by less than a word, with the masks worked out. */
  lemma ShlSmallWords(lo: uint64, hi: int64, n: nat)
    requires 0 < n < 64
    ensures Shl(lo, hi, n) ==
      (Wrap64((lo % Pow2(64 - n)) * Pow2(n)), Signed64((hi % Pow2(64 - n)) * Pow2(n) + lo / Pow2(64 - n)))
  {
    hide And, Or, Not64, Pow2, Wrap64, Signed64;
    CutWord(lo, 64 - n);
    HighPart(lo, 64 - n);
    ShiftedWord(lo, n);
    ShiftedWord(hi, n);
    Wrap64OfSigned(hi * Pow2(n));
    Wrap64Small((lo % Pow2(64 - n)) * Pow2(n));
    OrDisjoint(hi % Pow2(64 - n), lo / Pow2(64 - n), n);
  }

  lemma HighPart(lo: uint64, m: nat)
    requires 0 < m < 64
    ensures And(lo, Not64(Wrap64(Pow2(m) - 1))) / Pow2(m) == lo / Pow2(m)
  {
    Pow2Words();
    CutWord(lo, m);
    hide And, Pow2;
    assert Not64(Wrap64(Pow2(m) - 1)) == 0x1_0000_0000_0000_0000 - Pow2(m);
    AndHighMask(lo, m, 64);
    DivModUnique(lo - lo % Pow2(m), Pow2(m), lo / Pow2(m), 0);
  }

  lemma ShlIsMultiplication(lo: uint64, hi: int64, n: nat)
    ensures Value(Shl(lo, hi, n).0, Shl(lo, hi, n).1) == Wrap128(Value(lo, hi) * Pow2(n))
  {
    if n >= 128 {
      ShlOut(Value(lo, hi), n - 128);
    } else if n >= 64 {
      ShlLarge(lo, hi, n - 64);
    } else if n > 0 {
      ShlSmall(lo, hi, n);
    } else {
      Wrap128Unique(Value(lo, hi), Value(lo, hi), 0);
    }
  }

  lemma ShlOut(v: int, m: nat)
    ensures Wrap128(v * Pow2(128 + m)) == 0
  {
    Pow2Words();
    Pow2Add(128, m);
    hide Pow2;
    var k := v * Pow2(m);
    assert v * Pow2(128 + m) == k * 0x1_0000_0000_0000_0000_0000_0000_0000_0000;
    Wrap128Unique(v * Pow2(128 + m), 0, k);
  }

  lemma Distribute(h: int, l: int, n: int)
    ensures (h * 0x1_0000_0000_0000_0000 + l) * n == (h * n) * 0x1_0000_0000_0000_0000 + l * n
  {
  }

  lemma WrapWords(v: int, a: int, mid: int, low: uint64)
    requires v == (a * 0x1_0000_0000_0000_0000 + mid) * 0x1_0000_0000_0000_0000 + low
    ensures Wrap128(v) == Value(low, Signed64(mid))
  {
    var k := Signed64Congruent(mid);
    Wrap128Unique(v, Value(low, Signed64(mid)), a + k);
  }

  lemma ShlLarge(lo: uint64, hi: int64, m: nat)
    requires m < 64
    ensures Value(0, Signed64(lo * Pow2(m))) == Wrap128(Value(lo, hi) * Pow2(64 + m))
  {
    Pow2Words();
    Pow2Add(64, m);
    hide Pow2, Signed64, Wrap128;
    Distribute(hi, lo, Pow2(m));
    MulThree(Value(lo, hi), 0x1_0000_0000_0000_0000, Pow2(m));
    WrapWords(Value(lo, hi) * Pow2(64 + m), hi * Pow2(m), lo * Pow2(m), 0);
  }

  lemma ShiftAlgebra(lo: uint64, hi: int64, N: int, hq: int, mid: int, lq: int, low: int)
    requires hi * N == hq * 0x1_0000_0000_0000_0000 + mid && lo * N == lq * 0x1_0000_0000_0000_0000 + low
    ensures Value(lo, hi) * N == (hq * 0x1_0000_0000_0000_0000 + (mid + lq)) * 0x1_0000_0000_0000_0000 + low
  {
    Distribute(hi, lo, N);
  }

  lemma ShlSmall(lo: uint64, hi: int64, n: nat)
    requires 0 < n < 64
    ensures Value(Shl(lo, hi, n).0, Shl(lo, hi, n).1) == Wrap128(Value(lo, hi) * Pow2(n))
  {
    ShlSmallWords(lo, hi, n);
    hide Value, Shl, Pow2, Signed64, Wrap64, Wrap128;
    ShiftedWord(hi, n);
    ShiftedWord(lo, n);
    var P, N := Pow2(64 - n), Pow2(n);
    var low, mid := (lo % P) * N, (hi % P) * N;
    Wrap64Small(low);
    ShiftAlgebra(lo, hi, N, hi / P, mid, lo / P, low);
    WrapWords(Value(lo, hi) * N, hi / P, mid + lo / P, low);
  }

  lemma SmallQuotient(hi: int64, m: nat)
    ensures -0x8000_0000_0000_0000 <= hi / Pow2(m) < 0x8000_0000_0000_0000 && (hi / Pow2(m) < 0 <==> hi < 0)
  {
    var q, r := hi / Pow2(m), hi % Pow2(m);
    hide Pow2;
    if q < 0 {
      MulMonotone(q, -1, Pow2(m));
    }
    if q < -0x8000_0000_0000_0000 {
      MulMonotone(q, -0x8000_0000_0000_0001, Pow2(m));
    }
    if q >= 0 {
      MulMonotone(0, q, Pow2(m));
    }
    if q >= 0x8000_0000_0000_0000 {
      MulMonotone(0x8000_0000_0000_0000, q, Pow2(m));
    }
  }

  /** The value shifted down by less than a word. */
  lemma ValueDiv(lo: uint64, hi: int64, n: nat)
    requires n <= 64
    ensures Value(lo, hi) / Pow2(n) == hi * Pow2(64 - n) + lo / Pow2(n)
    ensures Value(lo, hi) % Pow2(n) == lo % Pow2(n)
  {
    CutWord(lo, n);
    hide Pow2;
    var N, P := Pow2(n), Pow2(64 - n);
    assert hi * 0x1_0000_0000_0000_0000 == (hi * P) * N by { MulThree(hi, P, N); }
    MulAssoc2(hi * P, lo / N, N);
    DivModUnique(Value(lo, hi), N, hi * P + lo / N, lo % N);
  }

  lemma MulThree(a: int, b: int, c: int)
    ensures a * (b * c) == (a * b) * c == (a * c) * b && a * (c * b) == (a * b) * c
  {
  }

  lemma MulAssoc2(a: int, b: int, c: int)
    ensures (a + b) * c == a * c + b * c
  {
  }

  lemma ValueDivLarge(lo: uint64, hi: int64, m: nat)
    ensures Value(lo, hi) / Pow2(64 + m) == hi / Pow2(m)
  {
    Pow2Words();
    Pow2Add(64, m);
    hide Pow2;
    DivModUnique(Value(lo, hi), 0x1_0000_0000_0000_0000, hi, lo);
    DivDiv(Value(lo, hi), 0x1_0000_0000_0000_0000, Pow2(m));
  }

  /** A word modulo 2^n is its signed reading modulo 2^n. */
  lemma WrapMod(x: int, n: nat)
    requires n <= 64
    ensures Wrap64(x) % Pow2(n) == x % Pow2(n)
    ensures Wrap64(x) / Pow2(n) == x / Pow2(n) - (x / 0x1_0000_0000_0000_0000) * Pow2(64 - n)
  {
    CutWord(Wrap64(x), n);
    hide Pow2;
    AddMultiple(x, Wrap64(x), x / 0x1_0000_0000_0000_0000, Pow2(64 - n), Pow2(n));
  }

  lemma AddMultiple(x: int, w: int, k: int, P: int, N: int)
    requires N > 0 && x == k * (N * P) + w
    ensures x / N == k * P + w / N && x % N == w % N
  {
    MulThree(k, P, N);
    MulAssoc2(k * P, w / N, N);
    DivModUnique(x, N, k * P + w / N, w % N);
  }

  /** Wrapping does not change the digits of a word. */
  lemma WrapDigit(x: int, n: nat)
    requires n < 64
    ensures (Wrap64(x) / Pow2(n)) % 2 == (x / Pow2(n)) % 2
  {
    WrapMod(x, n);
    var k := x / 0x1_0000_0000_0000_0000;
    EvenProduct(k, 64 - n);
    SubEven(x / Pow2(n), k * Pow2(64 - n));
  }

  lemma EvenProduct(k: int, m: nat)
    requires m > 0
    ensures (k * Pow2(m)) % 2 == 0
  {
    DoubleProduct(k, Pow2(m - 1));
  }

  lemma SubEven(a: int, e: int)
    requires e % 2 == 0
    ensures (a - e) % 2 == a % 2 && (a + e) % 2 == a % 2
  {
  }

  lemma ShrSmallWords(lo: uint64, hi: int64, n: nat)
    requires 0 < n < 64
    ensures lo / Pow2(n) + (hi % Pow2(n)) * Pow2(64 - n) < 0x1_0000_0000_0000_0000
    ensures Shr(lo, hi, n) == (lo / Pow2(n) + (hi % Pow2(n)) * Pow2(64 - n), hi / Pow2(n))
  {
    hide And, Or, Pow2;
    LowBits(hi, n);
    SmallQuotient(hi, n);
    JoinWords(lo, hi % Pow2(n), n);
  }

  lemma Wrap64Small(x: int)
    requires 0 <= x < 0x1_0000_0000_0000_0000
    ensures Wrap64(x) == x
  {
  }

  lemma LowBits(hi: int64, n: nat)
    requires 0 < n < 64
    ensures And(Wrap64(hi), Wrap64(Pow2(n) - 1)) == hi % Pow2(n)
  {
    CutWord(0, n);
    WrapMod(hi, n);
    AndLowMask(Wrap64(hi), n);
    hide And, Pow2;
    Wrap64Small(Pow2(n) - 1);
  }

  lemma JoinWords(lo: uint64, y: nat, n: nat)
    requires 0 < n < 64 && y < Pow2(n)
    ensures lo / Pow2(n) + y * Pow2(64 - n) < 0x1_0000_0000_0000_0000
    ensures Wrap64(Or(lo / Pow2(n), Wrap64(y * Pow2(64 - n)))) == lo / Pow2(n) + y * Pow2(64 - n)
  {
    hide Or, Pow2, Wrap64;
    CutWord(lo, n);
    JoinBound(lo / Pow2(n), y, Pow2(n), Pow2(64 - n));
    Wrap64Small(y * Pow2(64 - n));
    Wrap64Small(lo / Pow2(n) + y * Pow2(64 - n));
    OrDisjoint(y, lo / Pow2(n), 64 - n);
    OrSymmetric(lo / Pow2(n), y * Pow2(64 - n));
  }

  lemma JoinBound(q: nat, y: nat, N: nat, P: nat)
    requires q < P && y < N && N * P == 0x1_0000_0000_0000_0000
    ensures 0 <= y * P && q + y * P < 0x1_0000_0000_0000_0000
  {
    MulBound(y, N, P);
  }

  /** operator>>= is floor division, of negative values too. */
  lemma ShrIsFloorDivision(lo: uint64, hi: int64, n: nat)
    ensures Value(Shr(lo, hi, n).0, Shr(lo, hi, n).1) == Value(lo, hi) / Pow2(n)
  {
    hide And, Or, Pow2;
    if n >= 128 {
      ShrOut(Value(lo, hi), n);
    } else if n >= 64 {
      ShrLarge(lo, hi, n - 64);
    } else if n > 0 {
      ShrSmall(lo, hi, n);
    } else {
      ShrNone(Value(lo, hi));
    }
  }

  lemma ShrNone(v: int)
    ensures v / Pow2(0) == v
  {
  }

  lemma ShrLarge(lo: uint64, hi: int64, m: nat)
    ensures Value(Wrap64(hi / Pow2(m)), if hi < 0 then -1 else 0) == Value(lo, hi) / Pow2(64 + m)
  {
    ValueDivLarge(lo, hi, m);
    SmallQuotient(hi, m);
    hide Pow2;
    var q := hi / Pow2(m);
    assert q < 0 ==> Wrap64(q) == q + 0x1_0000_0000_0000_0000;
  }

  lemma ShrSmall(lo: uint64, hi: int64, n: nat)
    requires 0 < n < 64
    ensures Value(Shr(lo, hi, n).0, Shr(lo, hi, n).1) == Value(lo, hi) / Pow2(n)
  {
    ShrSmallWords(lo, hi, n);
    ValueDiv(lo, hi, n);
    CutWord(hi, n);
    hide Shr, Pow2;
    var N, P := Pow2(n), Pow2(64 - n);
    MulAssoc(hi / N, N, hi % N, P);
  }

  lemma ShrOut(v: int, n: nat)
    requires n >= 128 && -0x8000_0000_0000_0000_0000_0000_0000_0000 <= v < 0x8000_0000_0000_0000_0000_0000_0000_0000
    ensures v / Pow2(n) == if v < 0 then -1 else 0
  {
    Pow2Words();
    Pow2Add(128, n - 128);
    hide Pow2;
    MulMonotone(1, Pow2(n - 128), Pow2(128));
    DivModUnique(v, Pow2(n), if v < 0 then -1 else 0, if v < 0 then v + Pow2(n) else v);
  }

  /** bit(n): beyond the words it is the sign. */
  predicate Bit(lo: uint64, hi: int64, n: nat) {
    if n >= 128 then hi < 0
    else if n < 64 then And(lo, Wrap64(Pow2(n))) != 0
    else And(Wrap64(hi), Wrap64(Pow2(n - 64))) != 0
  }

  lemma Pow2IsWord(n: nat)
    requires n < 64
    ensures Wrap64(Pow2(n)) == Pow2(n)
  {
    CutWord(0, n);
    assert Pow2(64 - n) >= 2;
    MulMonotone(2, Pow2(64 - n), Pow2(n));
  }

  /** bit(n) is the n-th binary digit of the value, read as two's complement. */
  lemma BitIsDigit(lo: uint64, hi: int64, n: nat)
    ensures Bit(lo, hi, n) <==> (Value(lo, hi) / Pow2(n)) % 2 == 1
  {
    hide And;
    if n >= 128 {
      ShrOut(Value(lo, hi), n);
    } else if n < 64 {
      LowDigit(lo, hi, n);
      WordDigit(lo, n);
    } else {
      HighDigit(lo, hi, n - 64);
      WordDigit(Wrap64(hi), n - 64);
    }
  }

  lemma WordDigit(w: uint64, n: nat)
    requires n < 64
    ensures And(w, Wrap64(Pow2(n))) != 0 <==> (w / Pow2(n)) % 2 == 1
  {
    Pow2IsWord(n);
    AndBit(w, n);
    hide And, Pow2;
    var d, p := (w / Pow2(n)) % 2, Pow2(n);
    assert d == 0 || d == 1;
  }

  lemma LowDigit(lo: uint64, hi: int64, n: nat)
    requires n < 64
    ensures (Value(lo, hi) / Pow2(n)) % 2 == (lo / Pow2(n)) % 2
  {
    ValueDiv(lo, hi, n);
    EvenProduct(hi, 64 - n);
    SubEven(lo / Pow2(n), hi * Pow2(64 - n));
  }

  lemma HighDigit(lo: uint64, hi: int64, m: nat)
    requires m < 64
    ensures (Value(lo, hi) / Pow2(64 + m)) % 2 == (Wrap64(hi) / Pow2(m)) % 2 == (hi / Pow2(m)) % 2
  {
    ValueDivLarge(lo, hi, m);
    WrapDigit(hi, m);
  }

  /** Sets or clears digit n of a word. */
  function WriteBit(w: uint64, n: nat, val: bool): uint64
    requires n < 64
  {
    if val then Wrap64(Or(w, Wrap64(Pow2(n)))) else Wrap64(And(w, Not64(Wrap64(Pow2(n)))))
  }

  /** bit(n, val). */
  function SetBit(lo: uint64, hi: int64, n: nat, val: bool): (uint64, int64) {
    if n >= 128 then (lo, hi)
    else if n < 64 then (WriteBit(lo, n, val), hi)
    else (lo, Signed64(WriteBit(Wrap64(hi), n - 64, val)))
  }

  /** What writing a digit adds. */
  function Move(digit: int, n: nat, val: bool): int {
    ((if val then 1 else 0) - digit) * Pow2(n)
  }

  /** Writing digit n moves the value by the difference that digit makes, modulo 2^128; there is no digit
      beyond 127 to write. */
  lemma SetBitMovesValue(lo: uint64, hi: int64, n: nat, val: bool)
    ensures Value(SetBit(lo, hi, n, val).0, SetBit(lo, hi, n, val).1)
      == if n >= 128 then Value(lo, hi) else Wrap128(Value(lo, hi) + Move((Value(lo, hi) / Pow2(n)) % 2, n, val))
  {
    hide Value, WriteBit, Wrap64, Signed64, Wrap128, Pow2;
    if n >= 128 {
    } else if n < 64 {
      WriteBitMoves(lo, n, val);
      LowDigit(lo, hi, n);
      MoveLow(lo, hi, WriteBit(lo, n, val));
    } else {
      WriteBitMoves(Wrap64(hi), n - 64, val);
      HighDigit(lo, hi, n - 64);
      MoveHigh(lo, hi, n - 64, (if val then 1 else 0) - (Value(lo, hi) / Pow2(n)) % 2);
    }
  }

  lemma WriteBitMoves(w: uint64, n: nat, val: bool)
    requires n < 64
    ensures WriteBit(w, n, val) == w + Move((w / Pow2(n)) % 2, n, val)
  {
    hide And, Or;
    WordSetBit(w, n, val);
    AndNotRange(w, n);
  }

  lemma AndNotRange(w: uint64, n: nat)
    requires n < 64
    ensures 0 <= w + (0 - (w / Pow2(n)) % 2) * Pow2(n) <= w
  {
    CutWord(w, n);
    hide Pow2;
    var q, N := w / Pow2(n), Pow2(n);
    if q % 2 == 1 {
      MulMonotone(1, q, N);
    }
  }

  lemma MoveLow(lo: uint64, hi: int64, w: uint64)
    ensures Value(w, hi) == Wrap128(Value(lo, hi) + (w - lo))
  {
    Wrap128Unique(Value(lo, hi) + (w - lo), Value(w, hi), 0);
  }

  lemma MoveHigh(lo: uint64, hi: int64, m: nat, d: int)
    ensures Value(lo, Signed64(Wrap64(hi) + d * Pow2(m))) == Wrap128(Value(lo, hi) + d * Pow2(64 + m))
  {
    Pow2Words();
    Pow2Add(64, m);
    hide Pow2;
    MulThree(d, Pow2(m), 0x1_0000_0000_0000_0000);
    WrapWords(Value(lo, hi) + d * Pow2(64 + m), hi / 0x1_0000_0000_0000_0000, Wrap64(hi) + d * Pow2(m), lo);
  }

  lemma WordSetBit(w: uint64, n: nat, val: bool)
    requires n < 64
    ensures var d := (w / Pow2(n)) % 2;
      && (val ==> Or(w, Wrap64(Pow2(n))) == w + (1 - d) * Pow2(n) < 0x1_0000_0000_0000_0000)
      && (!val ==> And(w, Not64(Wrap64(Pow2(n)))) == w + (0 - d) * Pow2(n))
  {
    hide And, Or;
    Pow2IsWord(n);
    Pow2Words();
    OrBit(w, n);
    AndNotBit(w, n, 64);
    CutWord(w, n);
    assert n < 63 ==> Pow2(64 - n) == 2 * Pow2(63 - n);
    DigitFits(w, n);
  }

  lemma DigitFits(w: uint64, n: nat)
    requires n < 64
    ensures w + (1 - (w / Pow2(n)) % 2) * Pow2(n) < 0x1_0000_0000_0000_0000
  {
    CutWord(w, n);
    var h, N, P, q := Pow2(63 - n), Pow2(n), Pow2(64 - n), w / Pow2(n);
    assert P == 2 * h;
    hide Pow2;
    if q % 2 == 0 {
      assert q + 2 <= P;
      MulMonotone(q + 2, P, N);
      MulAssoc2(q, 2, N);
    }
  }
}
