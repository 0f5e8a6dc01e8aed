/**
 The conversions between the 64-bit float patterns the x87 registers compute
 with and the 80-bit images the guest loads and stores.
 */
module Float80 {
  import opened Arith

  const P32: nat := 0x1_0000_0000
  const P52: nat := 0x10_0000_0000_0000
  const P63: nat := 0x8000_0000_0000_0000
  const P64: nat := 0x1_0000_0000_0000_0000
  const BIAS_SHIFT: nat := 15360          // BIAS80 - BIAS64

  datatype F80 = F80(mant0: nat, mant1: nat, high: nat)

  predicate ValidF80(x: F80) { x.mant0 < P32 && x.mant1 < P32 && x.high < 65536 }

  function Mant80(x: F80): (m: nat) { x.mant1 * P32 + x.mant0 }

  function Exp80(x: F80): (e: nat) { x.high % 32768 }

  function Sign80(x: F80): (s: nat) { x.high / 32768 }

  function Pack80(sign: nat, exp: nat, mant: nat): (x: F80) { F80(mant % P32, mant / P32, sign * 32768 + exp) }

  function Sign64(v: nat): (s: nat) { v / P63 }

  function Exp64(v: nat): (e: nat) { v / P52 % 2048 }

  function Frac64(v: nat): (f: nat) { v % P52 }

  /** The index of the lowest set bit: one less than what ffsll counts. */
  function LowBit(n: nat): (i: nat) {
    if n == 0 || n % 2 == 1 then 0 else 1 + LowBit(n / 2)
  }

  lemma {:induction false} LowBitFactor(n: nat) returns (odd: nat)
    requires n > 0
    ensures n == odd * Pow2(LowBit(n)) && odd % 2 == 1
  {
    if n % 2 == 1 {
      odd := n;
    } else {
      odd := LowBitFactor(n / 2);
      MulAssoc(odd, 2, Pow2(LowBit(n / 2)));
      MulAssoc(2, odd, Pow2(LowBit(n / 2)));
    }
  }

  lemma {:induction false} LowBitShift(n: nat, k: nat)
    requires n > 0
    ensures n * Pow2(k) > 0 && LowBit(n * Pow2(k)) == LowBit(n) + k
  {
    if k > 0 {
      LowBitShift(n, k - 1);
      MulAssoc(2, n, Pow2(k - 1));
      MulAssoc(n, 2, Pow2(k - 1));
      assert n * Pow2(k) == 2 * (n * Pow2(k - 1));
    }
  }

  lemma {:induction false} LowBitBound(n: nat, k: nat)
    requires 0 < n < Pow2(k)
    ensures LowBit(n) < k
  {
    if n % 2 == 0 { LowBitBound(n / 2, k - 1); }
  }

  /** The powers of two that the formats are made of. */
  lemma Powers()
    ensures Pow2(11) == 2048 && Pow2(32) == P32 && Pow2(52) == P52 && Pow2(63) == P63 && Pow2(64) == P64
  {
    assert Pow2(8) == 256 && Pow2(11) == 2048;
    Pow2Add(8, 8);
    Pow2Add(16, 16);
    Pow2Add(32, 11);
    Pow2Add(43, 8);
    Pow2Add(51, 1);
    Pow2Add(52, 11);
    Pow2Add(63, 1);
  }

  /** Exponent and significand that tof80 makes of a subnormal: it shifts by the lowest set bit. */
  function FromSubnormal(f: nat): (em: (nat, nat))
    requires 0 < f < P52
  {
    var mant := f * 2048;
    LowBits(f);
    var shift := 63 - LowBit(mant);
    (BIAS_SHIFT + 1 - shift, mant * Pow2(shift) % P64)
  }

  lemma LowBits(f: nat)
    requires 0 < f < P52
    ensures LowBit(f) < 52 && LowBit(f * 2048) == LowBit(f) + 11
  {
    Powers();
    LowBitBound(f, 52);
    LowBitShift(f, 11);
  }

  /** tof80. */
  function Tof80(v: nat): (x: F80)
    requires v < P64
  {
    var sign, exp, f := Sign64(v), Exp64(v), Frac64(v);
    if exp == 0 then
      if f == 0 then Pack80(sign, 0, 0) else Pack80(sign, FromSubnormal(f).0, FromSubnormal(f).1)
    else if exp == 2047 then Pack80(sign, 0x7fff, P63 + f * 2048)
    else Pack80(sign, exp + BIAS_SHIFT, P63 + f * 2048)
  }

  /** The exponent and fraction fields fromf80 ends up with; the fraction of a NaN still has its integer bit. */
  function Narrow(exp: nat, mant: nat): (ef: (nat, nat)) {
    if exp == 0 then (0, 0)
    else if exp == 0x7fff then (2047, if mant / 2048 == 0 && mant != 0 then 1 else mant / 2048)
    else if exp <= BIAS_SHIFT - 52 then (0, 0)
    else if exp <= BIAS_SHIFT then (0, Shr(mant, 12 + BIAS_SHIFT - exp))
    else if exp >= BIAS_SHIFT + 2047 then (2047, 0)
    else (exp - BIAS_SHIFT, mant / 2048 % P52)
  }

  /** fromf80. */
  function Fromf80(x: F80): (v: nat) {
    var (e, f) := Narrow(Exp80(x), Mant80(x));
    Sign80(x) * P63 + Or(e * P52, f)
  }

  /** ---- The fields of a result ---- */

  lemma OrFields(e: nat, f: nat)
    requires f < P52 || (e == 2047 && f < 2 * P52)
    ensures Or(e * P52, f) == e * P52 + f % P52
  {
    var q, r := f / P52, f % P52;
    Powers();
    OrHigh(e, 52, f);
    hide Pow2, Or;
    ShrLowUnique(f, 52, q, r);
    OrZero(e);
    if f >= P52 { AllOnes(); }
  }

  lemma OrZero(e: nat)
    ensures Or(e, 0) == e
  {
  }

  lemma AllOnes()
    ensures Or(2047, 1) == 2047
  {
    assert Or(1023, 0) == 1023;
  }

  lemma Fields64(sign: nat, e: nat, f: nat)
    requires sign < 2 && e < 2048 && f < P52
    ensures var v := sign * P63 + e * P52 + f;
            v < P64 && Sign64(v) == sign && Exp64(v) == e && Frac64(v) == f
  {
    var v := sign * P63 + e * P52 + f;
    DivModUnique(v, P63, sign, e * P52 + f);
    DivModUnique(v, P52, sign * 2048 + e, f);
    DivModUnique(sign * 2048 + e, 2048, sign, e);
  }

  lemma Split64(v: nat)
    requires v < P64
    ensures v == Sign64(v) * P63 + Exp64(v) * P52 + Frac64(v)
    ensures Sign64(v) < 2 && Exp64(v) < 2048 && Frac64(v) < P52
  {
    var q := v / P52;
    DivModUnique(v, P63, q / 2048, q % 2048 * P52 + v % P52);
  }

  lemma Packed80(sign: nat, exp: nat, mant: nat)
    requires sign < 2 && exp < 32768 && mant < P64
    ensures var x := Pack80(sign, exp, mant);
            ValidF80(x) && Sign80(x) == sign && Exp80(x) == exp && Mant80(x) == mant
  {
    DivModUnique(sign * 32768 + exp, 32768, sign, exp);
  }

  /** ---- Round trip ---- */

  /** What comes back: a subnormal keeps only its lowest significand bit. */
  function Survives(v: nat): (w: nat) {
    if Exp64(v) == 0 && Frac64(v) > 0 then Sign64(v) * P63 + Pow2(LowBit(Frac64(v))) else v
  }

  lemma SubnormalImage(f: nat)
    requires 0 < f < P52
    ensures LowBit(f) < 52 && FromSubnormal(f) == (BIAS_SHIFT - 51 + LowBit(f), P63)
  {
    var l := LowBit(f);
    LowBits(f);
    Powers();
    var odd := LowBitFactor(f);
    hide Pow2, LowBit;
    Pow2Add(11, 52 - l);
    Pow2Add(l, 63 - l);
    MulAssoc(f, Pow2(11), Pow2(52 - l));
    MulAssoc(odd, Pow2(l), Pow2(63 - l));
    OddTop(odd);
  }

  lemma OddTop(odd: nat)
    requires odd % 2 == 1
    ensures odd * P63 % P64 == P63
  {
    DivModUnique(odd * P63, P64, odd / 2, P63);
  }

  lemma NarrowSubnormal(l: nat)
    requires l < 52
    ensures Narrow(BIAS_SHIFT - 51 + l, P63) == (0, Pow2(l)) && Pow2(l) < P52
  {
    Powers();
    hide Pow2, Shr, Low;
    Pow2Add(l, 63 - l);
    ShrLowUnique(P63, 63 - l, Pow2(l), 0);
    Pow2Less(l, 52);
  }

  lemma {:induction false} Pow2Less(a: nat, b: nat)
    requires a < b
    ensures 2 * Pow2(a) <= Pow2(b)
  {
    if a < b - 1 { Pow2Less(a, b - 1); }
  }

  lemma NarrowNormal(e: nat, f: nat)
    requires 0 < e < 2047 && f < P52
    ensures Narrow(e + BIAS_SHIFT, P63 + f * 2048) == (e, f)
  {
    hide Shr;
  }

  lemma NarrowSpecial(f: nat)
    requires f < P52
    ensures Narrow(0x7fff, P63 + f * 2048) == (2047, P52 + f)
  {
    hide Shr;
  }

  /** Storing a register and loading it again: exact, but for subnormals with several significand bits. */
  lemma StoreThenLoad(v: nat)
    requires v < P64
    ensures ValidF80(Tof80(v)) && Fromf80(Tof80(v)) == Survives(v) < P64
  {
    hide Or, LowBit, Pow2, Narrow, FromSubnormal, Pack80, Sign80, Exp80, Mant80, ValidF80, Sign64, Exp64, Frac64;
    var sign, e, f := Sign64(v), Exp64(v), Frac64(v);
    Split64(v);
    if e == 0 && f == 0 {
      Packed80(sign, 0, 0);
      NarrowZero();
      OrFields(0, 0);
    } else if e == 0 {
      SubnormalImage(f);
      Packed80(sign, BIAS_SHIFT - 51 + LowBit(f), P63);
      NarrowSubnormal(LowBit(f));
      OrFields(0, Pow2(LowBit(f)));
    } else if e == 2047 {
      Packed80(sign, 0x7fff, P63 + f * 2048);
      NarrowSpecial(f);
      OrFields(2047, P52 + f);
    } else {
      Packed80(sign, e + BIAS_SHIFT, P63 + f * 2048);
      NarrowNormal(e, f);
      OrFields(e, f);
    }
  }

  lemma NarrowZero()
    ensures Narrow(0, 0) == (0, 0)
  {
  }

  /** The values that survive: all but subnormals with more than one significand bit. */
  lemma StoreThenLoadExact(v: nat)
    requires v < P64
    ensures Fromf80(Tof80(v)) == v <==> (Exp64(v) == 0 && Frac64(v) > 0 ==> Frac64(v) == Pow2(LowBit(Frac64(v))))
  {
    hide Or, LowBit, Pow2, Tof80, Fromf80, Sign64, Exp64, Frac64;
    StoreThenLoad(v);
    Split64(v);
  }

  /** The smallest subnormal that does not survive: 3 comes back as 1. */
  lemma SubnormalExample()
    ensures Fromf80(Tof80(3)) == 1
  {
    StoreThenLoad(3);
    assert Pow2(0) == 1;
  }

  /** ---- Truncation ---- */

  /** Magnitudes in units of the smallest 80-bit denormal. */
  function Mag80(x: F80): (n: nat) {
    Mant80(x) * Pow2(if Exp80(x) == 0 then 0 else Exp80(x) - 1)
  }

  /** The distance to the next 64-bit float of that exponent. */
  function Unit64(e: nat): (n: nat) { Pow2((if e == 0 then 0 else e - 1) + 15371) }

  /** The same units for the 64-bit float with exponent and fraction fields e and f. */
  function Mag64(e: nat, f: nat): (n: nat) {
    (if e == 0 then f else P52 + f) * Unit64(e)
  }

  /** 2 to the power 1024. */
  function Overflow(): (n: nat) { Pow2(17469) }

  predicate TruncatesTo(m: nat, e: nat, f: nat) {
    if m >= Overflow() then e == 2047 && f == 0
    else e < 2047 && f < P52 && Mag64(e, f) <= m < Mag64(e, f) + Unit64(e)
  }

  /** ---- Conversion to 80 bits is exact ---- */

  lemma NormalMagnitude(e: nat, f: nat)
    requires e > 0
    ensures (P63 + f * 2048) * Pow2(e + BIAS_SHIFT - 1) == Mag64(e, f)
  {
    Powers();
    hide Pow2;
    Pow2Add(11, e + BIAS_SHIFT - 1);
    MulAssoc(P52 + f, 2048, Pow2(e + BIAS_SHIFT - 1));
  }

  lemma SubnormalMagnitude(l: nat)
    ensures P63 * Pow2(BIAS_SHIFT - 52 + l) == Pow2(l) * Pow2(15371) == Mag64(0, Pow2(l))
  {
    Powers();
    hide Pow2;
    Pow2Add(63, BIAS_SHIFT - 52 + l);
    Pow2Add(l, 15371);
  }

  /**
   tof80 keeps the sign and the value: every finite image is normalised and has the
   magnitude of its float, but that a subnormal counts as its lowest significand bit
   alone.  Infinities and NaNs keep their fraction below the integer bit.
   */
  lemma StoreExact(v: nat)
    requires v < P64
    ensures var x, e, f := Tof80(v), Exp64(v), Frac64(v);
            && x.mant0 < P32 && x.mant1 < P32 && x.high < 65536 && x.high / 32768 == v / P63
            && (e == 2047 ==> x.high % 32768 == 0x7fff && x.mant1 * P32 + x.mant0 == P63 + 2048 * f)
            && (e == 0 && f == 0 ==> x.high % 32768 == 0 && x.mant1 == x.mant0 == 0)
            && (e < 2047 && (e > 0 || f > 0) ==> 0 < x.high % 32768 < 0x7fff && x.mant1 * P32 + x.mant0 >= P63)
            && (0 < e < 2047 ==> Mag80(x) == Mag64(e, f))
            && (e == 0 && f > 0 ==> Mag80(x) == Mag64(0, Pow2(LowBit(f))))
  {
    hide LowBit, Pow2, FromSubnormal, Pack80, Mag64, Exp64, Frac64;
    var sign, e, f := Sign64(v), Exp64(v), Frac64(v);
    Split64(v);
    if e == 0 && f == 0 {
      Packed80(sign, 0, 0);
    } else if e == 0 {
      SubnormalImage(f);
      Packed80(sign, BIAS_SHIFT - 51 + LowBit(f), P63);
      SubnormalMagnitude(LowBit(f));
    } else if e == 2047 {
      Packed80(sign, 0x7fff, P63 + f * 2048);
    } else {
      Packed80(sign, e + BIAS_SHIFT, P63 + f * 2048);
      NormalMagnitude(e, f);
    }
  }

  /** So every finite value but a subnormal with several significand bits is stored without loss. */
  lemma StoreKeepsValue(v: nat)
    requires v < P64 && Exp64(v) < 2047
    ensures Mag80(Tof80(v)) == Mag64(Exp64(v), Frac64(v)) <==>
              (Exp64(v) == 0 && Frac64(v) > 0 ==> Frac64(v) == Pow2(LowBit(Frac64(v))))
  {
    var f := Frac64(v);
    StoreExact(v);
    hide LowBit, Pow2, Tof80, Mag80, Exp64, Frac64;
    if Exp64(v) == 0 {
      if f == 0 { ZeroMagnitude(v); } else { SameUnit(f, Pow2(LowBit(f))); }
    }
  }

  lemma ZeroMagnitude(v: nat)
    requires v < P64 && Exp64(v) == 0 && Frac64(v) == 0
    ensures Mag80(Tof80(v)) == 0 == Mag64(0, 0)
  {
    hide Pow2;
    StoreExact(v);
  }

  lemma SameUnit(f: nat, g: nat)
    ensures Mag64(0, f) == Mag64(0, g) <==> f == g
  {
    hide Pow2;
    var u := Pow2(15371);
    DivModUnique(f * u, u, f, 0);
    DivModUnique(g * u, u, g, 0);
  }

  /** 1.0 and -2.5. */
  lemma StoreExamples()
    ensures Tof80(0x3FF0_0000_0000_0000) == F80(0, 0x8000_0000, 0x3FFF)
    ensures Tof80(0xC004_0000_0000_0000) == F80(0, 0xA000_0000, 0xC000)
  {
  }

  lemma Scaled(m: nat, k: nat, j: nat, q: nat, r: nat)
    requires m == q * Pow2(k) + r && r < Pow2(k)
    ensures q * Pow2(k + j) <= m * Pow2(j) < q * Pow2(k + j) + Pow2(k + j)
  {
    hide Pow2;
    var p, s := Pow2(j), Pow2(k);
    Pow2Add(k, j);
    MulDistrib(q * s, r, p);
    MulAssoc(q, s, p);
    MulDistrib(r, s - r, p);
    MulNonNeg(r, p);
    MulGe(s - r, p);
  }

  lemma Below(m: nat, k: nat, j: nat, n: nat)
    requires m < Pow2(k) && k + j <= n
    ensures m * Pow2(j) < Pow2(n)
  {
    hide Pow2;
    Scaled(m, k, j, 0, m);
    if k + j < n { Pow2Less(k + j, n); }
  }

  lemma TruncateTiny(exp: nat, mant: nat)
    requires mant < P64 && exp <= BIAS_SHIFT - 52
    ensures TruncatesTo(mant * Pow2(if exp == 0 then 0 else exp - 1), 0, 0)
  {
    Powers();
    hide Pow2;
    var j: nat := if exp == 0 then 0 else exp - 1;
    Below(mant, 64, j, 15371);
    Below(mant, 64, j, 17469);
  }

  lemma TruncateSubnormal(exp: nat, mant: nat)
    requires mant < P64 && BIAS_SHIFT - 52 < exp <= BIAS_SHIFT
    ensures TruncatesTo(mant * Pow2(exp - 1), 0, Shr(mant, 12 + BIAS_SHIFT - exp))
  {
    var k, j: nat := 12 + BIAS_SHIFT - exp, exp - 1;
    Powers();
    hide Pow2, Shr, Low;
    ShrLow(mant, k);
    Scaled(mant, k, j, Shr(mant, k), Low(mant, k));
    Below(mant, 64, j, 17469);
    ShiftedFits(Shr(mant, k), k, mant);
  }

  lemma ShiftedFits(q: nat, k: nat, mant: nat)
    requires q * Pow2(k) <= mant < P64 && 12 <= k
    ensures q < P52
  {
    Powers();
    hide Pow2;
    if q >= P52 {
      Pow2Add(52, k);
      MulDistrib(P52, q - P52, Pow2(k));
      MulNonNeg(q - P52, Pow2(k));
      if k > 12 { Pow2Less(64, 52 + k); }
    }
  }

  lemma TruncateNormal(exp: nat, mant: nat)
    requires P63 <= mant < P64 && BIAS_SHIFT < exp < BIAS_SHIFT + 2047
    ensures TruncatesTo(mant * Pow2(exp - 1), exp - BIAS_SHIFT, mant / 2048 % P52)
  {
    hide Pow2, TruncatesTo;
    NormalFraction(mant);
    TruncateUnits(exp, mant, mant / 2048 % P52, mant % 2048);
  }

  lemma TruncateUnits(exp: nat, mant: nat, f: nat, r: nat)
    requires mant == (P52 + f) * 2048 + r && f < P52 && r < 2048 && mant < P64
    requires BIAS_SHIFT < exp < BIAS_SHIFT + 2047
    ensures TruncatesTo(mant * Pow2(exp - 1), exp - BIAS_SHIFT, f)
  {
    Powers();
    hide Pow2, TruncatesTo;
    Scaled(mant, 11, exp - 1, P52 + f, r);
    Below(mant, 64, exp - 1, 17469);
    BetweenUnits(mant * Pow2(exp - 1), exp - BIAS_SHIFT, f, Pow2(11 + (exp - 1)));
  }

  lemma BetweenUnits(m: nat, e: nat, f: nat, u: nat)
    requires 0 < e < 2047 && f < P52 && u == Pow2(e + 15370) && m < Pow2(17469)
    requires (P52 + f) * u <= m < (P52 + f) * u + u
    ensures TruncatesTo(m, e, f)
  {
    hide Pow2;
  }

  lemma NormalFraction(mant: nat)
    requires P63 <= mant < P64
    ensures mant == (P52 + mant / 2048 % P52) * 2048 + mant % 2048
  {
    var q := mant / 2048;
    DivModUnique(q, P52, 1, q - P52);
  }

  lemma TruncateHuge(exp: nat, mant: nat)
    requires P63 <= mant && BIAS_SHIFT + 2047 <= exp
    ensures TruncatesTo(mant * Pow2(exp - 1), 2047, 0)
  {
    Powers();
    hide Pow2;
    Pow2Add(63, exp - 1);
    MulDistrib(P63, mant - P63, Pow2(exp - 1));
    MulNonNeg(mant - P63, Pow2(exp - 1));
    if exp > BIAS_SHIFT + 2047 { Pow2Less(17469, 63 + exp - 1); }
  }

  /** fromf80 rounds toward zero: to infinity from 2 to the 1024 on, else to the float just at or below. */
  lemma LoadTruncates(x: F80)
    requires ValidF80(x) && Exp80(x) < 0x7fff && (Exp80(x) != 0 ==> Mant80(x) >= P63)
    ensures Fromf80(x) < P64 && Sign64(Fromf80(x)) == Sign80(x)
    ensures TruncatesTo(Mag80(x), Exp64(Fromf80(x)), Frac64(Fromf80(x)))
  {
    hide Or, Pow2, Shr, TruncatesTo, Narrow, Sign64, Exp64, Frac64;
    var exp, mant := Exp80(x), Mant80(x);
    var (e, f) := Narrow(exp, mant);
    NarrowTruncates(exp, mant);
    OrFields(e, f);
    Fields64(Sign80(x), e, f);
  }

  lemma NarrowTruncates(exp: nat, mant: nat)
    requires mant < P64 && exp < 0x7fff && (exp != 0 ==> mant >= P63)
    ensures var (e, f) := Narrow(exp, mant);
            e < 2048 && f < P52 && TruncatesTo(mant * Pow2(if exp == 0 then 0 else exp - 1), e, f)
  {
    hide Pow2, Shr, TruncatesTo;
    if exp <= BIAS_SHIFT - 52 {
      TruncateTiny(exp, mant);
    } else if exp <= BIAS_SHIFT {
      TruncateSubnormal(exp, mant);
      ShrLow(mant, 12 + BIAS_SHIFT - exp);
      ShiftedFits(Shr(mant, 12 + BIAS_SHIFT - exp), 12 + BIAS_SHIFT - exp, mant);
    } else if exp < BIAS_SHIFT + 2047 {
      TruncateNormal(exp, mant);
    } else {
      TruncateHuge(exp, mant);
    }
  }

  /** ---- Infinities and NaNs ---- */

  /** A loaded infinity or NaN has the top 52 bits of the fraction of its image. */
  lemma LoadSpecial(x: F80)
    requires ValidF80(x) && Exp80(x) == 0x7fff
    ensures Fromf80(x) < P64 && Sign64(Fromf80(x)) == Sign80(x) && Exp64(Fromf80(x)) == 2047
    ensures Frac64(Fromf80(x)) == if 0 < Mant80(x) < 2048 then 1 else Mant80(x) % P63 / 2048
  {
    hide Or, Shr, Sign64, Exp64, Frac64;
    var mant := Mant80(x);
    var (e, f) := Narrow(0x7fff, mant);
    TopBits(mant);
    OrFields(e, f);
    Fields64(Sign80(x), e, f % P52);
  }

  lemma TopBits(mant: nat)
    requires mant < P64
    ensures mant / 2048 % P52 == mant % P63 / 2048 && mant / 2048 < 2 * P52
  {
    var q, r := mant / 2048, mant % 2048;
    DivModUnique(mant, P63, q / P52, q % P52 * 2048 + r);
    DivModUnique(q % P52 * 2048 + r, 2048, q % P52, r);
  }

  /** So a NaN with its integer bit set stays one exactly when one of those bits is set. */
  lemma NanStaysIff(x: F80)
    requires ValidF80(x) && Exp80(x) == 0x7fff && Mant80(x) > P63
    ensures Exp64(Fromf80(x)) == 2047
    ensures Frac64(Fromf80(x)) != 0 <==> Mant80(x) - P63 >= 2048
  {
    hide Fromf80, Exp64, Frac64;
    LoadSpecial(x);
    DivModUnique(Mant80(x), P63, 1, Mant80(x) - P63);
  }

  /** The NaN 7FFF 80000000 00000400 is loaded as the infinity 7FF00000 00000000. */
  lemma NanLostExample()
    ensures Fromf80(F80(0x400, 0x8000_0000, 0x7FFF)) == 0x7FF0_0000_0000_0000
  {
    hide Or, Shr, Sign64, Exp64, Frac64;
    var x := F80(0x400, 0x8000_0000, 0x7FFF);
    DivModUnique(0x7FFF, 32768, 0, 0x7FFF);
    LoadSpecial(x);
    DivModUnique(Mant80(x), P63, 1, 0x400);
    Split64(Fromf80(x));
  }
}
