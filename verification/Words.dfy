/** Machine words: powers of two, wrap-around, and the bitwise operators on their binary digits. */
module Words {

  type uint64 = x: int | 0 <= x < 0x1_0000_0000_0000_0000
  type int64 = x: int | -0x8000_0000_0000_0000 <= x < 0x8000_0000_0000_0000

  function Pow2(n: nat): (p: nat)
    ensures p >= 1
  {
    if n == 0 then 1 else 2 * Pow2(n - 1)
  }

  /** The unsigned 64-bit word congruent to `x`. */
  function Wrap64(x: int): (w: uint64) {
    x % 0x1_0000_0000_0000_0000
  }

  /** The signed 64-bit word congruent to `x`. */
  function Signed64(x: int): (w: int64) {
    if x % 0x1_0000_0000_0000_0000 < 0x8000_0000_0000_0000 then x % 0x1_0000_0000_0000_0000
    else x % 0x1_0000_0000_0000_0000 - 0x1_0000_0000_0000_0000
  }

  /** The signed 128-bit value congruent to `x`. */
  function Wrap128(x: int): (w: int)
    ensures -0x8000_0000_0000_0000_0000_0000_0000_0000 <= w < 0x8000_0000_0000_0000_0000_0000_0000_0000
  {
    if x % 0x1_0000_0000_0000_0000_0000_0000_0000_0000 < 0x8000_0000_0000_0000_0000_0000_0000_0000 then
      x % 0x1_0000_0000_0000_0000_0000_0000_0000_0000
    else
      x % 0x1_0000_0000_0000_0000_0000_0000_0000_0000 - 0x1_0000_0000_0000_0000_0000_0000_0000_0000
  }

  function And(a: nat, b: nat): nat {
    if a == 0 || b == 0 then 0 else 2 * And(a / 2, b / 2) + (a % 2) * (b % 2)
  }

  function Or(a: nat, b: nat): nat
    decreases a + b
  {
    if a == 0 && b == 0 then 0
    else 2 * Or(a / 2, b / 2) + (if a % 2 == 1 || b % 2 == 1 then 1 else 0)
  }

  /** The logical right shift. */
  function Lsr(w: nat, n: nat): nat {
    DivModFacts(w, Pow2(n));
    w / Pow2(n)
  }

  /** The complement of a 64-bit word. */
  function Not64(x: uint64): uint64 {
    0x1_0000_0000_0000_0000 - 1 - x
  }

  lemma {:induction false} Pow2Add(m: nat, n: nat)
    ensures Pow2(m + n) == Pow2(m) * Pow2(n)
  {
    if m > 0 {
      Pow2Add(m - 1, n);
      assert Pow2(m + n) == 2 * Pow2(m - 1 + n);
    }
  }

  lemma Pow2Double(n: nat, p: nat, q: nat)
    requires Pow2(n) == p && q == p * p
    ensures Pow2(n + n) == q
  {
    hide Pow2;
    Pow2Add(n, n);
  }

  lemma Pow2Words()
    ensures Pow2(63) == 0x8000_0000_0000_0000 && Pow2(64) == 0x1_0000_0000_0000_0000
    ensures Pow2(127) == 0x8000_0000_0000_0000_0000_0000_0000_0000
    ensures Pow2(128) == 0x1_0000_0000_0000_0000_0000_0000_0000_0000
  {
    var n := 1;
    Pow2Double(n, 2, 4);
    Pow2Double(n + n, 4, 16);
    n := 4;
    Pow2Double(n, 16, 0x100);
    Pow2Double(n + n, 0x100, 0x1_0000);
    n := 16;
    Pow2Double(n, 0x1_0000, 0x1_0000_0000);
    Pow2Double(n + n, 0x1_0000_0000, 0x1_0000_0000_0000_0000);
    n := 64;
    Pow2Double(n, 0x1_0000_0000_0000_0000, 0x1_0000_0000_0000_0000_0000_0000_0000_0000);
  }

  lemma DivModFacts(x: int, d: int)
    requires d > 0
    ensures x == (x / d) * d + x % d && 0 <= x % d < d
    ensures x >= 0 ==> x / d >= 0
  {
    var q := x / d;
    if q < 0 {
      MulMonotone(q, -1, d);
    }
  }

  lemma MulMonotone(x: int, y: int, a: int)
    requires a > 0 && x <= y
    ensures x * a <= y * a
  {
  }

  /** Quotient and remainder are the only ones. */
  lemma DivModUnique(x: int, d: int, q: int, r: int)
    requires d > 0 && x == q * d + r && 0 <= r < d
    ensures x / d == q && x % d == r
  {
    var q', r' := x / d, x % d;
    assert x == q' * d + r' && 0 <= r' < d;
    assert (q - q') * d == r' - r;
    if q > q' {
      MulAtLeast(q - q', d);
    } else if q < q' {
      MulAtLeast(q' - q, d);
    }
  }

  lemma MulAtLeast(k: int, d: int)
    requires k >= 1 && d > 0
    ensures k * d >= d
  {
  }

  /** A value in range congruent to `x` is the wrapped `x`. */
  lemma Wrap128Unique(x: int, w: int, k: int)
    requires x == w + k * 0x1_0000_0000_0000_0000_0000_0000_0000_0000
    requires -0x8000_0000_0000_0000_0000_0000_0000_0000 <= w < 0x8000_0000_0000_0000_0000_0000_0000_0000
    ensures Wrap128(x) == w
  {
    if w >= 0 {
      DivModUnique(x, 0x1_0000_0000_0000_0000_0000_0000_0000_0000, k, w);
    } else {
      DivModUnique(x, 0x1_0000_0000_0000_0000_0000_0000_0000_0000, k - 1,
                   w + 0x1_0000_0000_0000_0000_0000_0000_0000_0000);
    }
  }

  lemma Wrap128Congruent(x: int) returns (k: int)
    ensures x == Wrap128(x) + k * 0x1_0000_0000_0000_0000_0000_0000_0000_0000
  {
    k := if x % 0x1_0000_0000_0000_0000_0000_0000_0000_0000 < 0x8000_0000_0000_0000_0000_0000_0000_0000 then
           x / 0x1_0000_0000_0000_0000_0000_0000_0000_0000
         else
           x / 0x1_0000_0000_0000_0000_0000_0000_0000_0000 + 1;
  }

  lemma Signed64Congruent(x: int) returns (k: int)
    ensures x == Signed64(x) + k * 0x1_0000_0000_0000_0000
  {
    k := if x % 0x1_0000_0000_0000_0000 < 0x8000_0000_0000_0000 then x / 0x1_0000_0000_0000_0000
         else x / 0x1_0000_0000_0000_0000 + 1;
  }

  /** Halving commutes with taking the remainder by a power of two. */
  lemma ModPow2Step(x: int, n: nat)
    ensures x % Pow2(n + 1) == 2 * ((x / 2) % Pow2(n)) + x % 2
  {
    var h := x / 2;
    var q, r := h / Pow2(n), h % Pow2(n);
    assert h == q * Pow2(n) + r;
    assert x == 2 * (q * Pow2(n) + r) + x % 2;
    assert 2 * (q * Pow2(n)) == q * Pow2(n + 1);
    DivModUnique(x, Pow2(n + 1), q, 2 * r + x % 2);
  }

  lemma DivPow2Step(x: int, n: nat)
    ensures x / Pow2(n + 1) == (x / 2) / Pow2(n)
  {
    var h := x / 2;
    var q, r := h / Pow2(n), h % Pow2(n);
    assert h == q * Pow2(n) + r;
    assert 2 * (q * Pow2(n)) == q * Pow2(n + 1);
    DivModUnique(x, Pow2(n + 1), q, 2 * r + x % 2);
  }

  lemma AndHalves(a: nat, b: nat, h: nat, d: nat)
    requires b == 2 * h + d && d < 2
    ensures And(a, b) == 2 * And(a / 2, h) + (a % 2) * d
  {
    assert b / 2 == h && b % 2 == d;
    assert And(0, h) == 0 && And(a / 2, 0) == 0;
  }

  lemma {:induction false} OrZero(a: nat)
    ensures Or(a, 0) == a
  {
    if a > 0 {
      OrZero(a / 2);
    }
  }

  lemma OrHalves(h: nat, low: nat)
    ensures Or(2 * h, low) == 2 * Or(h, low / 2) + low % 2
  {
    assert (2 * h) / 2 == h && (2 * h) % 2 == 0;
  }

  lemma {:induction false} OrSymmetric(a: nat, b: nat)
    ensures Or(a, b) == Or(b, a)
    decreases a + b
  {
    if a != 0 || b != 0 {
      OrSymmetric(a / 2, b / 2);
    }
  }

  /** A low mask keeps the remainder. */
  lemma {:induction false} AndLowMask(x: nat, n: nat)
    ensures And(x, Pow2(n) - 1) == x % Pow2(n)
  {
    if n > 0 {
      AndLowMask(x / 2, n - 1);
      ModPow2Step(x, n - 1);
      assert Pow2(n) == 2 * Pow2(n - 1);
      hide And, Pow2;
      AndHalves(x, Pow2(n) - 1, Pow2(n - 1) - 1, 1);
    }
  }

  /** A single-bit mask tells the binary digit. */
  lemma {:induction false} AndBit(x: nat, n: nat)
    ensures And(x, Pow2(n)) == ((x / Pow2(n)) % 2) * Pow2(n)
  {
    if n == 0 {
      AndHalves(x, 1, 0, 1);
    } else {
      AndBit(x / 2, n - 1);
      DivPow2Step(x, n - 1);
      AndHalves(x, Pow2(n), Pow2(n - 1), 0);
    }
  }

  /** OR of two words whose digits do not overlap is their sum. */
  lemma {:induction false} OrDisjoint(high: nat, low: nat, n: nat)
    requires low < Pow2(n)
    ensures Or(high * Pow2(n), low) == high * Pow2(n) + low
  {
    hide Or;
    if n == 0 {
      OrZero(high);
    } else {
      OrDisjoint(high, low / 2, n - 1);
      OrHalves(high * Pow2(n - 1), low);
      assert high * Pow2(n) == 2 * (high * Pow2(n - 1));
    }
  }

  /** A high mask clears the low digits. */
  lemma {:induction false} AndHighMask(x: nat, m: nat, k: nat)
    requires m <= k && x < Pow2(k)
    ensures Pow2(k) >= Pow2(m) && And(x, Pow2(k) - Pow2(m)) == x - x % Pow2(m)
  {
    Pow2Add(m, k - m);
    MulAtLeast(Pow2(k - m), Pow2(m));
    if m == 0 {
      AndLowMask(x, k);
      DivModUnique(x, Pow2(k), 0, x);
    } else {
      AndHighMask(x / 2, m - 1, k - 1);
      ModPow2Step(x, m - 1);
      AndHalves(x, Pow2(k) - Pow2(m), Pow2(k - 1) - Pow2(m - 1), 0);
    }
  }

  /** Dividing in two steps. */
  lemma DivDiv(x: int, a: int, b: int)
    requires a > 0 && b > 0
    ensures a * b > 0 && x / (a * b) == (x / a) / b && x % (a * b) == ((x / a) % b) * a + x % a
  {
    var y, r := x / a, x % a;
    var q, s := y / b, y % b;
    MulAtLeast(a, b);
    assert x == (q * b + s) * a + r;
    assert (q * b + s) * a == q * (a * b) + s * a by { MulAssoc(q, b, s, a); }
    assert s * a + r < a * b by { MulBound(s, b, a); }
    assert s * a >= 0;
    DivModUnique(x, a * b, q, s * a + r);
  }

  lemma MulAssoc(q: int, b: int, s: int, a: int)
    ensures (q * b + s) * a == q * (a * b) + s * a
  {
    assert (q * b) * a == q * (a * b);
  }

  lemma MulBound(s: int, b: int, a: int)
    requires 0 <= s < b && a > 0
    ensures 0 <= s * a <= b * a - a
  {
    assert b * a - s * a == (b - s) * a;
    MulAtLeast(b - s, a);
    assert s * a >= 0;
  }

  /** Setting a digit. */
  lemma {:induction false} OrBit(x: nat, n: nat)
    ensures Or(x, Pow2(n)) == x + (1 - (x / Pow2(n)) % 2) * Pow2(n)
  {
    if n == 0 {
      OrZero(x / 2);
    } else {
      OrBit(x / 2, n - 1);
      DivPow2Step(x, n - 1);
      OrSymmetric(x, Pow2(n));
      OrSymmetric(x / 2, Pow2(n - 1));
      OrHalves(Pow2(n - 1), x);
      DoubleProduct(1 - (x / Pow2(n)) % 2, Pow2(n - 1));
    }
  }

  /** Clearing a digit. */
  lemma {:induction false} AndNotBit(x: nat, n: nat, k: nat)
    requires n < k && x < Pow2(k)
    ensures Pow2(k) > Pow2(n) && And(x, Pow2(k) - 1 - Pow2(n)) == x - ((x / Pow2(n)) % 2) * Pow2(n)
  {
    Pow2Less(n, k);
    if n == 0 {
      AndHalves(x, Pow2(k) - 2, Pow2(k - 1) - 1, 0);
      AndLowMask(x / 2, k - 1);
      DivModUnique(x / 2, Pow2(k - 1), 0, x / 2);
    } else {
      AndNotBit(x / 2, n - 1, k - 1);
      DivPow2Step(x, n - 1);
      var p, q := Pow2(n - 1), Pow2(k - 1);
      assert Pow2(n) == 2 * p && Pow2(k) == 2 * q;
      hide And, Pow2;
      AndHalves(x, 2 * q - 1 - 2 * p, q - 1 - p, 1);
      var d := ((x / 2) / p) % 2;
      DoubleProduct(d, p);
    }
  }

  lemma Pow2Less(n: nat, k: nat)
    requires n < k
    ensures Pow2(n) < Pow2(k)
  {
    Pow2Add(n, k - n);
    assert Pow2(k - n) == 2 * Pow2(k - n - 1);
    hide Pow2;
    ProductGrows(Pow2(n), Pow2(k - n));
  }

  lemma ProductGrows(a: int, b: int)
    requires a > 0 && b >= 2
    ensures a < a * b
  {
  }

  lemma DoubleProduct(d: int, p: int)
    ensures d * (2 * p) == 2 * (d * p)
  {
  }
}
