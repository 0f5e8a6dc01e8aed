/** Division facts used by several modules. */
module Arith {

  lemma MulGe(d: int, m: int)
    requires d >= 1 && m >= 0
    ensures d * m >= m
  {
  }

  /** Quotient and remainder are unique. */
  lemma DivModUnique(x: int, m: int, q: int, r: int)
    requires m > 0 && x == q * m + r && 0 <= r < m
    ensures x / m == q && x % m == r
  {
    var d := x / m - q;
    assert d * m == (x / m) * m - q * m;
    if d >= 1 {
      MulGe(d, m);
    } else if d <= -1 {
      MulGe(-d, m);
    }
  }

  function Pow2(n: nat): (p: nat)
    ensures p > 0
  {
    if n == 0 then 1 else 2 * Pow2(n - 1)
  }

  lemma {:induction false} Pow2Add(a: nat, b: nat)
    ensures Pow2(a + b) == Pow2(a) * Pow2(b)
  {
    if a > 0 { Pow2Add(a - 1, b); }
  }

  lemma Powers()
    ensures Pow2(8) == 0x100 && Pow2(12) == 0x1000 && Pow2(16) == 0x1_0000 && Pow2(20) == 0x10_0000
    ensures Pow2(32) == 0x1_0000_0000
  {
    assert Pow2(4) == 16;
    Pow2Add(4, 4);
    Pow2Add(8, 4);
    Pow2Add(8, 8);
    Pow2Add(16, 4);
    Pow2Add(16, 16);
  }

  lemma MulAssoc(x: int, y: int, z: int)
    ensures (x * y) * z == x * (y * z)
  {
  }

  lemma MulDistrib(x: int, y: int, z: int)
    ensures (x + y) * z == x * z + y * z
  {
  }

  /** Shifting left by a and cutting off a + b bits leaves what a right shift by b does. */
  lemma ShiftCancel(x: nat, a: nat, b: nat)
    ensures x * Pow2(a) / Pow2(a + b) == x / Pow2(b)
  {
    hide Pow2;
    Pow2Add(a, b);
    CancelFactor(x, Pow2(a), Pow2(b));
    assert Pow2(a) * Pow2(b) == Pow2(b) * Pow2(a);
  }

  lemma CancelFactor(x: nat, p: nat, q: nat)
    requires p > 0 && q > 0
    ensures q * p > 0 && x * p / (q * p) == x / q
  {
    var k, r := x / q, x % q;
    MulGe(q, p);
    MulDistrib(k * q, r, p);
    MulAssoc(k, q, p);
    MulDistrib(q - r, r, p);
    MulGe(q - r, p);
    assert 0 <= r * p;
    DivModUnique(x * p, q * p, k, r * p);
  }

  /** A multiple of the modulus does not change a remainder. */
  lemma ModMultiple(x: int, k: int, m: int)
    requires m > 0
    ensures (x + k * m) % m == x % m
  {
    assert x + k * m == (x / m + k) * m + x % m;
    DivModUnique(x + k * m, m, x / m + k, x % m);
  }

  /** Bounds of a product. */
  lemma ProductBound(a: int, b: int, h: int)
    requires -h <= a <= h && -h <= b <= h
    ensures -(h * h) <= a * b <= h * h
  {
    MulMono(if a < 0 then -a else a, if b < 0 then -b else b, h);
    if a < 0 { assert a * b == -((-a) * b); }
    if b < 0 { assert a * b == -(a * (-b)); }
    if a < 0 && b < 0 { assert a * b == (-a) * (-b); }
  }

  lemma MulMono(x: int, y: int, h: int)
    requires 0 <= x <= h && 0 <= y <= h
    ensures 0 <= x * y <= h * h
  {
    MulDistrib(x, h - x, y);
    assert 0 <= (h - x) * y;
    assert h * y == y * h;
    MulDistrib(y, h - y, h);
    assert 0 <= (h - y) * h;
  }

  lemma MulNonNeg(a: int, b: int)
    requires a >= 0 && b >= 0
    ensures a * b >= 0
  {
  }

  lemma QuotientBound(n: nat, d: nat, k: nat)
    requires d > 0 && n < k * d
    ensures n / d < k
  {
    var q, r := n / d, n % d;
    assert n == q * d + r;
    MulDistrib(q - k, k, d);
    if q >= k { MulNonNeg(q - k, d); }
  }

  /** Bitwise or. */
  function Or(a: nat, b: nat): (c: nat) {
    if a == 0 then b else if b == 0 then a
    else (if a % 2 == 1 || b % 2 == 1 then 1 else 0) + 2 * Or(a / 2, b / 2)
  }

  lemma {:induction false} OrDisjoint(q: nat, k: nat, low: nat)
    requires low < Pow2(k)
    ensures Or(q * Pow2(k), low) == q * Pow2(k) + low
  {
    if k > 0 && q > 0 && low > 0 {
      var p := Pow2(k - 1);
      MulAssoc(q, 2, p);
      MulAssoc(2, q, p);
      assert q * Pow2(k) == 2 * (q * p);
      OrDisjoint(q, k - 1, low / 2);
      MulGe(q, p);
      assert q * Pow2(k) % 2 == 0 && q * Pow2(k) / 2 == q * p;
    }
  }

  /** Shift right. */
  function Shr(m: nat, k: nat): (r: nat) { if k == 0 then m else Shr(m / 2, k - 1) }

  /** The low `k` bits. */
  function Low(m: nat, k: nat): (r: nat) { if k == 0 then 0 else m % 2 + 2 * Low(m / 2, k - 1) }

  lemma {:induction false} ShrLow(m: nat, k: nat)
    ensures m == Shr(m, k) * Pow2(k) + Low(m, k) && Low(m, k) < Pow2(k)
  {
    if k > 0 {
      ShrLow(m / 2, k - 1);
      MulAssoc(Shr(m, k), 2, Pow2(k - 1));
      MulAssoc(2, Shr(m, k), Pow2(k - 1));
    }
  }

  /** A number made of two fields comes apart again. */
  lemma ShrLowUnique(m: nat, k: nat, q: nat, r: nat)
    requires m == q * Pow2(k) + r && r < Pow2(k)
    ensures Shr(m, k) == q && Low(m, k) == r
  {
    ShrLow(m, k);
    DivModUnique(m, Pow2(k), q, r);
    DivModUnique(m, Pow2(k), Shr(m, k), Low(m, k));
  }

  /** Or of a number that has `k` zeros at the bottom. */
  lemma {:induction false} OrHigh(a: nat, k: nat, m: nat)
    ensures Or(a * Pow2(k), m) == Or(a, Shr(m, k)) * Pow2(k) + Low(m, k)
  {
    if k > 0 {
      var p := Pow2(k - 1);
      OrHigh(a, k - 1, m / 2);
      Twice(a, p);
      OrHalf(a * p, m);
      Twice(Or(a, Shr(m, k)), p);
    }
  }

  lemma Twice(a: nat, p: nat)
    ensures a * (2 * p) == 2 * (a * p) && a * p >= 0
  {
  }

  lemma OrHalf(b: nat, m: nat)
    ensures Or(2 * b, m) == 2 * Or(b, m / 2) + m % 2
  {
  }
}
