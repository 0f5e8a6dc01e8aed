/**
 Rotation of an m-bit number: one bit at a time, as the architecture describes it,
 and all at once, from two shifted parts.
 */
module Rotates {
  import opened Arith

  function Left1(m: nat, x: int): (r: int)
    requires m > 0
  {
    2 * x % Pow2(m) + x / Pow2(m - 1)
  }

  function Right1(m: nat, x: int): (r: int)
    requires m > 0
  {
    x / 2 + x % 2 * Pow2(m - 1)
  }

  /** `n` single rotations. */
  function LeftTimes(m: nat, x: int, n: nat): (r: int)
    requires m > 0
  {
    if n == 0 then x else Left1(m, LeftTimes(m, x, n - 1))
  }

  function RightTimes(m: nat, x: int, n: nat): (r: int)
    requires m > 0
  {
    if n == 0 then x else Right1(m, RightTimes(m, x, n - 1))
  }

  /** The low m - y bits moved up, the top y bits brought to the bottom. */
  function Left(m: nat, x: int, y: nat): (r: int)
    requires y <= m
  {
    x % Pow2(m - y) * Pow2(y) + x / Pow2(m - y)
  }

  /** The top m - y bits moved down, the low y bits brought to the top. */
  function Right(m: nat, x: int, y: nat): (r: int)
    requires y <= m
  {
    x % Pow2(y) * Pow2(m - y) + x / Pow2(y)
  }

  lemma LeftAt(m: nat, x: int, y: nat, p: int, d: int, h: int, l: int)
    requires y <= m && p == Pow2(y) && d == Pow2(m - y) && x == h * d + l && 0 <= l < d
    ensures Left(m, x, y) == l * p + h
  {
    DivModUnique(x, d, h, l);
  }

  lemma RightAt(m: nat, x: int, y: nat, p: int, d: int, h: int, l: int)
    requires y <= m && p == Pow2(y) && d == Pow2(m - y) && x == h * p + l && 0 <= l < p
    ensures Right(m, x, y) == l * d + h
  {
    DivModUnique(x, p, h, l);
  }

  lemma Left1At(m: nat, x: int, top: int, t: int, z: int)
    requires m > 0 && top == Pow2(m - 1) && 0 <= t < 2 && 0 <= z < top && x == (if t == 1 then top else 0) + z
    ensures Left1(m, x) == 2 * z + t
  {
    DivModUnique(x, top, t, z);
    DivModUnique(2 * x, 2 * top, t, 2 * z);
  }

  /** Times a bit. */
  lemma BitTimes(t: int, d: int, l: int, p: int)
    requires 0 <= t < 2
    ensures t * d == if t == 1 then d else 0
    ensures (t * d + l) * p == (if t == 1 then d * p else 0) + l * p
  {
    MulDistrib(d, l, p);
  }

  lemma Double(h: int, t: int, d: int)
    ensures (2 * h + t) * d == h * (2 * d) + t * d && h * (2 * d) == 2 * (h * d)
  {
    MulDistrib(2 * h, t, d);
    MulAssoc(2, h, d);
    MulAssoc(h, 2, d);
  }

  lemma JoinBound(l: int, h: int, p: int, d: int)
    requires 0 <= l < d && 0 <= h < p
    ensures 0 <= l * p + h < d * p
  {
    MulDistrib(d - l, l, p);
    MulGe(d - l, p);
    MulNonNeg(l, p);
  }

  lemma Factors(m: nat, y: nat)
    requires y < m
    ensures Pow2(m - 1) == Pow2(m - y - 1) * Pow2(y)
    ensures Pow2(m) == 2 * Pow2(m - 1) && Pow2(m - y) == 2 * Pow2(m - y - 1) && Pow2(y + 1) == 2 * Pow2(y)
  {
    Pow2Add(m - y - 1, y);
  }

  /** `x` in three parts: the top y bits, one bit, the rest. */
  lemma Parts(m: nat, x: int, y: nat) returns (h: int, t: int, l: int)
    requires y < m && 0 <= x < Pow2(m)
    ensures 0 <= t < 2 && 0 <= l < Pow2(m - y - 1) && 0 <= h < Pow2(y)
    ensures x == (2 * h + t) * Pow2(m - y - 1) + l
  {
    hide Pow2;
    Factors(m, y);
    var p, d := Pow2(y), Pow2(m - y - 1);
    h, t, l := x / d / 2, x / d % 2, x % d;
    MulAssoc(2, d, p);
    MulCommute(d, p);
    MulAssoc(2, p, d);
    QuotientBound(x, d, 2 * p);
    DivNonNeg(x, d);
  }

  lemma DivNonNeg(x: int, d: int)
    requires x >= 0 && d > 0
    ensures x / d >= 0
  {
  }

  lemma LeftStep(m: nat, x: int, y: nat)
    requires y < m && 0 <= x < Pow2(m)
    ensures Left1(m, Left(m, x, y)) == Left(m, x, y + 1)
  {
    hide Pow2, Left, Left1;
    var p, d := Pow2(y), Pow2(m - y - 1);
    Factors(m, y);
    var h, t, l := Parts(m, x, y);
    BitTimes(t, d, l, p);
    Double(h, t, d);
    Double(l, 0, p);
    JoinBound(l, h, p, d);
    LeftAt(m, x, y, p, 2 * d, h, t * d + l);
    LeftAt(m, x, y + 1, 2 * p, d, 2 * h + t, l);
    Left1At(m, Left(m, x, y), d * p, t, l * p + h);
  }

  lemma RightStep(m: nat, x: int, y: nat)
    requires y < m && 0 <= x < Pow2(m)
    ensures Right1(m, Right(m, x, y)) == Right(m, x, y + 1)
  {
    hide Pow2, Right;
    var d, p := Pow2(m - y - 1), Pow2(y);
    Factors(m, y);
    Factors(m, m - y - 1);
    var h, t, l := Parts(m, x, m - y - 1);
    BitTimes(t, p, l, d);
    Double(h, t, p);
    Double(l, 0, d);
    MulCommute(p, d);
    RightAt(m, x, y, p, 2 * d, 2 * h + t, l);
    RightAt(m, x, y + 1, 2 * p, d, h, t * p + l);
    DivModUnique(2 * (l * d + h) + t, 2, l * d + h, t);
    BitTimes(t, d * p, 0, 1);
  }

  lemma MulCommute(a: int, b: int)
    ensures a * b == b * a
  {
  }

  lemma WholeTurn(m: nat, x: int)
    requires 0 <= x < Pow2(m)
    ensures Left(m, x, 0) == x == Left(m, x, m) && Right(m, x, 0) == x == Right(m, x, m)
  {
    hide Pow2;
    PowZero();
    DivModUnique(x, Pow2(m), 0, x);
  }

  lemma PowZero()
    ensures Pow2(0) == 1
  {
  }

  function Rem(n: nat, m: nat): (r: nat)
    requires m > 0
    ensures r < m
  {
    n % m
  }

  lemma NextRem(m: nat, n: nat)
    requires m > 0
    ensures Rem(0, m) == 0 && Rem(n + 1, m) == if Rem(n, m) + 1 == m then 0 else Rem(n, m) + 1
  {
    var q, r := n / m, n % m;
    if r + 1 == m {
      MulDistrib(q, 1, m);
      DivModUnique(n + 1, m, q + 1, 0);
    } else {
      DivModUnique(n + 1, m, q, r + 1);
    }
  }

  /** Any number of single rotations is one rotation by the remainder. */
  lemma {:induction false} LeftIs(m: nat, x: int, n: nat)
    requires m > 0 && 0 <= x < Pow2(m)
    ensures LeftTimes(m, x, n) == Left(m, x, Rem(n, m))
  {
    hide Left, Left1, Pow2, Rem;
    WholeTurn(m, x);
    NextRem(m, if n == 0 then 0 else n - 1);
    if n > 0 {
      LeftIs(m, x, n - 1);
      LeftStep(m, x, Rem(n - 1, m));
    }
  }

  lemma {:induction false} RightIs(m: nat, x: int, n: nat)
    requires m > 0 && 0 <= x < Pow2(m)
    ensures RightTimes(m, x, n) == Right(m, x, Rem(n, m))
  {
    hide Right, Right1, Pow2, Rem;
    WholeTurn(m, x);
    NextRem(m, if n == 0 then 0 else n - 1);
    if n > 0 {
      RightIs(m, x, n - 1);
      RightStep(m, x, Rem(n - 1, m));
    }
  }

  // ----- Shifts in a 32-bit word, joined by or -----

  /** x << y in a 32-bit word. */
  function Shl32(x: nat, y: nat): (r: nat) { x * Pow2(y) % 0x1_0000_0000 }

  /** x >> y. */
  function Shr32(x: nat, y: nat): (r: nat) {
    DivNonNeg(x, Pow2(y));
    x / Pow2(y)
  }

  /** What is shifted out of the word is cut off. */
  lemma ShlCuts(x: nat, y: nat)
    requires y <= 32
    ensures Shl32(x, y) == x % Pow2(32 - y) * Pow2(y)
  {
    hide Pow2;
    var p, d := Pow2(y), Pow2(32 - y);
    Powers();
    Pow2Add(32 - y, y);
    var q, l := x / d, x % d;
    MulDistrib(q * d, l, p);
    MulAssoc(q, d, p);
    JoinBound(l, 0, p, d);
    DivModUnique(x * p, d * p, q, l * p);
  }

  /** Reducing a shifted-and-filled number to `b` bits keeps the low b - y bits of what was shifted. */
  lemma Reduce(x: nat, y: nat, b: nat, low: nat)
    requires y <= b && low < Pow2(y)
    ensures (x * Pow2(y) + low) % Pow2(b) == x % Pow2(b - y) * Pow2(y) + low
  {
    hide Pow2;
    var p, d := Pow2(y), Pow2(b - y);
    Pow2Add(b - y, y);
    var q, l := x / d, x % d;
    MulDistrib(q * d, l, p);
    MulAssoc(q, d, p);
    JoinBound(l, low, p, d);
    DivModUnique(x * p + low, d * p, q, l * p + low);
  }

  /** A remainder by a larger power of two does not change one by a smaller. */
  lemma ModPow(x: nat, a: nat, b: nat)
    requires a <= b
    ensures x % Pow2(b) % Pow2(a) == x % Pow2(a)
  {
    hide Pow2;
    var p, d := Pow2(a), Pow2(b - a);
    Pow2Add(b - a, a);
    var q := x / (d * p);
    MulAssoc(q, d, p);
    assert x == x % (d * p) + q * d * p;
    ModMultiple(x % (d * p), q * d, p);
  }

  /** A shifted part with something smaller below it, reduced to `b` bits. */
  lemma JoinedMod(x: nat, y: nat, b: nat, low: nat)
    requires y <= b <= 32 && low < Pow2(y)
    ensures Or(Shl32(x, y), low) % Pow2(b) == x % Pow2(b - y) * Pow2(y) + low
  {
    hide Pow2, Shl32, Or;
    ShlCuts(x, y);
    OrDisjoint(x % Pow2(32 - y), y, low);
    Reduce(x % Pow2(32 - y), y, b, low);
    ModPow(x, b - y, 32 - y);
  }

  lemma {:induction false} OrComm(a: nat, b: nat)
    ensures Or(a, b) == Or(b, a)
  {
    if a > 0 && b > 0 { OrComm(a / 2, b / 2); }
  }

  lemma OrZero(a: nat)
    ensures Or(a, 0) == a == Or(0, a)
  {
  }

  lemma OrStep(a: nat, i: nat, b: nat, j: nat)
    requires i < 2 && j < 2
    ensures Or(2 * a + i, 2 * b + j) == 2 * Or(a, b) + (if i == 1 || j == 1 then 1 else 0)
  {
  }

  lemma {:induction false} OrAssoc(a: nat, b: nat, c: nat)
    ensures Or(Or(a, b), c) == Or(a, Or(b, c))
    decreases a + b + c
  {
    hide Or;
    if a == 0 || b == 0 || c == 0 {
      OrZero(a);
      OrZero(b);
      OrZero(c);
      OrZero(Or(a, b));
      OrZero(Or(b, c));
    } else {
      var i, j, k := a % 2, b % 2, c % 2;
      OrAssoc(a / 2, b / 2, c / 2);
      OrStep(a / 2, i, b / 2, j);
      OrStep(b / 2, j, c / 2, k);
      OrStep(Or(a / 2, b / 2), if i == 1 || j == 1 then 1 else 0, c / 2, k);
      OrStep(a / 2, i, Or(b / 2, c / 2), if j == 1 || k == 1 then 1 else 0);
    }
  }

  /** (x << y) | (x >> (b - y)), cut to `b` bits. */
  lemma LeftJoined(b: nat, x: nat, y: nat)
    requires 0 < y < b <= 32 && x < Pow2(b)
    ensures Or(Shl32(x, y), Shr32(x, b - y)) % Pow2(b) == Left(b, x, y)
  {
    hide Pow2, Shl32, Or;
    Pow2Add(y, b - y);
    QuotientBound(x, Pow2(b - y), Pow2(y));
    JoinedMod(x, y, b, Shr32(x, b - y));
  }

  /** (x >> y) | (x << (b - y)), cut to `b` bits. */
  lemma RightJoined(b: nat, x: nat, y: nat)
    requires 0 < y < b <= 32 && x < Pow2(b)
    ensures Or(Shr32(x, y), Shl32(x, b - y)) % Pow2(b) == Right(b, x, y)
  {
    hide Pow2, Shl32, Or;
    Pow2Add(b - y, y);
    QuotientBound(x, Pow2(y), Pow2(b - y));
    OrComm(Shr32(x, y), Shl32(x, b - y));
    JoinedMod(x, b - y, b, Shr32(x, y));
  }

  /** A carry bit just above the low part. */
  lemma CarryJoined(c: nat, y: nat, low: nat)
    requires c < 2 && y < 32 && low < Pow2(y)
    ensures Or(Shl32(c, y), low) == c * Pow2(y) + low < Pow2(y + 1)
  {
    hide Pow2, Or, Shl32;
    ShlCuts(c, y);
    Factors(y + 1, 0);
    PowAtLeast2(32 - y);
    DivModUnique(c, Pow2(32 - y), 0, c);
    OrDisjoint(c, y, low);
  }

  lemma PowAtLeast2(k: nat)
    requires k > 0
    ensures Pow2(k) >= 2
  {
  }

  // ----- Through the carry: rotation of b + 1 bits with the carry on top -----

  /** (x << y) | (c << (y - 1)) | (x >> (b + 1 - y)), and the bit that leaves. */
  lemma CarryLeft(b: nat, x: nat, c: nat, y: nat)
    requires 0 < y <= b <= 32 && y < 32 && x < Pow2(b) && c < 2
    ensures var r := Left(b + 1, c * Pow2(b) + x, y);
            && r % Pow2(b) == Or(Or(Shl32(x, y), Shl32(c, y - 1)), if y != 1 then Shr32(x, b + 1 - y) else 0) % Pow2(b)
            && r / Pow2(b) == Shr32(x, b - y) % 2
  {
    hide Pow2, Shl32, Or, Left, Shr32;
    var h, t, l := BitSplit(b, x, y);
    var low := LeftParts(b, x, c, y, h, t, l);
    TopPart(b, x, y, h);
    CarryJoined(c, y - 1, h);
    OrAssoc(Shl32(x, y), Shl32(c, y - 1), h);
    JoinedMod(x, y, b, low);
  }

  lemma LeftParts(b: nat, x: nat, c: nat, y: nat, h: nat, t: nat, l: nat) returns (low: nat)
    requires 0 < y <= b && x < Pow2(b) && c < 2
    requires t < 2 && l < Pow2(b - y) && h < Pow2(y - 1)
    requires x == h * (2 * Pow2(b - y)) + (t * Pow2(b - y) + l)
    ensures low == c * Pow2(y - 1) + h < Pow2(y)
    ensures var r := Left(b + 1, c * Pow2(b) + x, y);
            r / Pow2(b) == t && r % Pow2(b) == l * Pow2(y) + low
  {
    hide Pow2, Left;
    var p, d, k := Pow2(y), Pow2(b - y), Pow2(y - 1);
    Factors(b + 1, y);
    Factors(y, 0);
    Pow2Add(y - 1, b - y + 1);
    MulAssoc(c, k, 2 * d);
    MulDistrib(c * k, h, 2 * d);
    BitTimes(c, k, 0, 1);
    low := c * k + h;
    BitTimes(t, d, l, p);
    LeftAt(b + 1, c * Pow2(b) + x, y, p, 2 * d, low, t * d + l);
    JoinBound(l, low, p, d);
    TopAndRest(Left(b + 1, c * Pow2(b) + x, y), Pow2(b), t, l * p + low);
  }

  lemma TopAndRest(r: int, top: int, t: int, z: int)
    requires 0 <= t < 2 && 0 <= z < top && r == (if t == 1 then top else 0) + z
    ensures r / top == t && r % top == z
  {
    DivModUnique(r, top, t, z);
  }

  /** The top y - 1 bits, the next one, and the rest. */
  lemma BitSplit(b: nat, x: nat, y: nat) returns (h: nat, t: nat, l: nat)
    requires 0 < y <= b && x < Pow2(b)
    ensures t < 2 && l < Pow2(b - y) && h < Pow2(y - 1)
    ensures x == h * (2 * Pow2(b - y)) + (t * Pow2(b - y) + l)
    ensures t == Shr32(x, b - y) % 2 && l == x % Pow2(b - y) && h == Shr32(x, b - y) / 2
  {
    hide Pow2;
    var h0, t0, l0 := Parts(b, x, y - 1);
    h, t, l := h0, t0, l0;
    Double(h, t, Pow2(b - y));
    ShiftParts(x, b - y, h, t, l);
  }

  lemma ShiftParts(x: nat, j: nat, h: nat, t: nat, l: nat)
    requires t < 2 && l < Pow2(j) && x == (2 * h + t) * Pow2(j) + l
    ensures t == Shr32(x, j) % 2 && l == x % Pow2(j) && h == Shr32(x, j) / 2
  {
    hide Pow2;
    DivModUnique(x, Pow2(j), 2 * h + t, l);
  }

  lemma ShiftOnce(x: nat, j: nat)
    ensures Shr32(x, j) / 2 == Shr32(x, j + 1)
  {
    hide Pow2;
    var d := Pow2(j);
    Factors(j + 1, 0);
    var q, l := x / d, x % d;
    DivNonNeg(x, d);
    Double(q / 2, q % 2, d);
    BitTimes(q % 2, d, 0, 1);
    DivModUnique(x, 2 * d, q / 2, q % 2 * d + l);
  }

  lemma TopPart(b: nat, x: nat, y: nat, h: nat)
    requires 0 < y <= b && x < Pow2(b) && h == Shr32(x, b - y) / 2
    ensures h == if y != 1 then Shr32(x, b + 1 - y) else 0
  {
    hide Pow2;
    ShiftOnce(x, b - y);
    if y == 1 { DivModUnique(x, Pow2(b), 0, x); }
  }

  /** (x >> y) | (c << (b - y)) | (x << (b + 1 - y)), and the bit that leaves. */
  lemma CarryRight(b: nat, x: nat, c: nat, y: nat)
    requires 0 < y <= b <= 32 && y < 32 && x < Pow2(b) && c < 2
    ensures var r := Right(b + 1, c * Pow2(b) + x, y);
            && r % Pow2(b) == Or(Or(Shr32(x, y), Shl32(c, b - y)), if y != 1 then Shl32(x, b + 1 - y) else 0) % Pow2(b)
            && r / Pow2(b) == Shl32(x, b - y) % Pow2(b) / Pow2(b - 1) % 2
  {
    hide Pow2, Shl32, Or, Right, Shr32;
    var h, t, l := BitSplit(b, x, b - y + 1);
    LowPart(b, x, y, h);
    var low := RightParts(b, x, c, y, h, t, l);
    BitOut(b, x, y, h, t, l);
    CarryJoined(c, b - y, h);
    OrComm(h, Shl32(c, b - y));
    CodeLow(b, x, y, l, low);
  }

  lemma CodeLow(b: nat, x: nat, y: nat, l: nat, low: nat)
    requires 0 < y <= b <= 32 && l == x % Pow2(y - 1) && low < Pow2(b + 1 - y)
    ensures Or(low, if y != 1 then Shl32(x, b + 1 - y) else 0) % Pow2(b) == l * Pow2(b + 1 - y) + low
  {
    hide Pow2, Shl32, Or;
    if y != 1 {
      OrComm(low, Shl32(x, b + 1 - y));
      JoinedMod(x, b + 1 - y, b, low);
    } else {
      OrZero(low);
      PowZero();
      DivModUnique(low, Pow2(b), 0, low);
    }
  }

  lemma RightParts(b: nat, x: nat, c: nat, y: nat, h: nat, t: nat, l: nat) returns (low: nat)
    requires 0 < y <= b && x < Pow2(b) && c < 2
    requires t < 2 && l < Pow2(y - 1) && h < Pow2(b - y)
    requires x == h * (2 * Pow2(y - 1)) + (t * Pow2(y - 1) + l)
    ensures low == c * Pow2(b - y) + h < Pow2(b + 1 - y)
    ensures var r := Right(b + 1, c * Pow2(b) + x, y);
            r / Pow2(b) == t && r % Pow2(b) == l * Pow2(b + 1 - y) + low
  {
    hide Pow2, Right;
    var p, d, k := Pow2(y), Pow2(b - y), Pow2(y - 1);
    Factors(b + 1, y);
    Factors(y, 0);
    Pow2Add(b - y, y);
    Pow2Add(y - 1, b - y + 1);
    MulAssoc(c, d, p);
    MulDistrib(c * d, h, p);
    BitTimes(c, d, 0, 1);
    low := c * d + h;
    BitTimes(t, k, l, 2 * d);
    RightAt(b + 1, c * Pow2(b) + x, y, p, 2 * d, low, t * k + l);
    JoinBound(l, low, 2 * d, k);
    TopAndRest(Right(b + 1, c * Pow2(b) + x, y), Pow2(b), t, l * (2 * d) + low);
  }

  lemma LowPart(b: nat, x: nat, y: nat, h: nat)
    requires 0 < y <= b && h == Shr32(x, y - 1) / 2
    ensures h == Shr32(x, y)
  {
    ShiftOnce(x, y - 1);
  }

  /** Bit y - 1, moved up to bit b - 1. */
  lemma BitOut(b: nat, x: nat, y: nat, h: nat, t: nat, l: nat)
    requires 0 < y <= b <= 32 && t < 2 && l < Pow2(y - 1)
    requires x == h * (2 * Pow2(y - 1)) + (t * Pow2(y - 1) + l)
    ensures Shl32(x, b - y) % Pow2(b) / Pow2(b - 1) == t
  {
    hide Pow2, Shl32, Or;
    LowBits(x, y, h, t, l);
    OrZero(Shl32(x, b - y));
    JoinedMod(x, b - y, b, 0);
    assert b - (b - y) == y;
    MovedUp(b, y, t, l);
    TopAndRest(Shl32(x, b - y) % Pow2(b), Pow2(b - 1), t, l * Pow2(b - y));
  }

  lemma LowBits(x: nat, y: nat, h: nat, t: nat, l: nat)
    requires 0 < y && t < 2 && l < Pow2(y - 1) && x == h * (2 * Pow2(y - 1)) + (t * Pow2(y - 1) + l)
    ensures x % Pow2(y) == t * Pow2(y - 1) + l
  {
    hide Pow2;
    Factors(y, 0);
    BitTimes(t, Pow2(y - 1), 0, 1);
    DivModUnique(x, Pow2(y), h, t * Pow2(y - 1) + l);
  }

  lemma MovedUp(b: nat, y: nat, t: nat, l: nat)
    requires 0 < y <= b && t < 2 && l < Pow2(y - 1)
    ensures (t * Pow2(y - 1) + l) * Pow2(b - y) == (if t == 1 then Pow2(b - 1) else 0) + l * Pow2(b - y)
    ensures 0 <= l * Pow2(b - y) < Pow2(b - 1)
  {
    hide Pow2;
    BitTimes(t, Pow2(y - 1), l, Pow2(b - y));
    Pow2Add(y - 1, b - y);
    JoinBound(l, 0, Pow2(b - y), Pow2(y - 1));
  }
}
