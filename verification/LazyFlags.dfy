/**
 The lazy condition codes of the 386 core.  An instruction stores sign-extended
 operands and its result; a status flag is derived only when somebody asks.
 */
module LazyFlags {
  import opened ArchFlags
  import opened Arith
  import opened Rotates
  import opened Wrappers

  /** The bits of the flags register: the six status flags, and the rest by number. */
  datatype FlagBit = CF | PF | AF | ZF | SF | OF | Other(bit: nat)

  datatype CcOp =
    | ADC | ADD | SBB | SUB | NEG(w: Width) | DEC(w: Width) | INC(w: Width)
    | IMUL(w: Width) | MUL(w: Width) | SHL | SHR | SAR | LOGIC

  /** cpu->cc and cpu->flags. */
  datatype Lazy = Lazy(op: CcOp, src1: word, src2: word, dst: word, dst2: word, mask: set<FlagBit>, flags: set<FlagBit>)

  function Sext(w: Width, a: int): (r: word) {
    var v := a % Size(w);
    if v >= Half(w) then v + M32 - Size(w) else v
  }

  /** Sign extension keeps the unsigned order, so a 32-bit compare decides the carry of any width. */
  lemma SextMonotone(w: Width, a: int, b: int)
    ensures Sext(w, a) < Sext(w, b) <==> a % Size(w) < b % Size(w)
    ensures Sext(w, a) == Sext(w, b) <==> a % Size(w) == b % Size(w)
    ensures Sext(w, a) % Size(w) == a % Size(w)
  {
  }

  // Bit 31 and bit 4 of a word, and the parity table.

  predicate Top(x: word) { x >= 0x8000_0000 }

  predicate Bit4(x: word) { x / 16 % 2 == 1 }

  /** The first row of parity_tab; every other row is this row or its complement. */
  const ROW: seq<bool> := [true, false, false, true, false, true, true, false,
                           false, true, true, false, true, false, false, true]

  predicate ParityTab(v: nat)
    requires v < 256
  {
    ROW[v / 16] == ROW[v % 16]
  }

  // ----- Getters: the flag comes from cc while its mask bit is set, else from flags -----

  predicate GetCF(l: Lazy) {
    if CF in l.mask then
      match l.op
      case ADC => l.dst <= l.src2
      case ADD => l.dst < l.src2
      case SBB => l.src1 <= l.src2
      case SUB => l.src1 < l.src2
      case NEG(_) => l.dst != 0
      case DEC(_) => false       // the source asserts that this cannot happen
      case INC(_) => false
      case IMUL(w) => if w == W32 then (if Top(l.dst) then M32 - 1 else 0) != l.dst2 else Sext(w, l.dst) != l.dst
      case MUL(w) => if w == W32 then l.dst2 != 0 else l.dst / Size(w) != 0
      case SHL => l.dst2 % 2 == 1
      case SHR => l.dst2 % 2 == 1
      case SAR => l.dst2 % 2 == 1
      case LOGIC => false
    else
      CF in l.flags
  }

  predicate GetPF(l: Lazy) {
    if PF in l.mask then ParityTab(l.dst % 256) else PF in l.flags
  }

  predicate GetAF(l: Lazy) {
    if AF in l.mask then
      match l.op
      case NEG(_) => l.dst % 16 != 0
      case DEC(_) => l.dst % 16 == 15
      case INC(_) => l.dst % 16 == 0
      case IMUL(_) => false
      case MUL(_) => false
      case SHL => false
      case SHR => false
      case SAR => false
      case LOGIC => false
      case _ => (Bit4(l.src1) != Bit4(l.src2)) != Bit4(l.dst)      // bit 4 of src1 ^ src2 ^ dst
    else
      AF in l.flags
  }

  predicate GetZF(l: Lazy) {
    if ZF in l.mask then l.dst == 0 else ZF in l.flags
  }

  predicate GetSF(l: Lazy) {
    if SF in l.mask then Top(l.dst) else SF in l.flags
  }

  predicate GetOF(l: Lazy) {
    if OF in l.mask then
      match l.op
      case ADC => Top(l.src1) == Top(l.src2) && Top(l.dst) != Top(l.src2)
      case ADD => Top(l.src1) == Top(l.src2) && Top(l.dst) != Top(l.src2)
      case SBB => Top(l.src1) != Top(l.src2) && Top(l.dst) != Top(l.src1)
      case SUB => Top(l.src1) != Top(l.src2) && Top(l.dst) != Top(l.src1)
      case DEC(w) => l.dst == Sext(w, Half(w) - 1)
      case INC(w) => l.dst == Sext(w, Half(w))
      case NEG(w) => l.dst == Sext(w, Half(w))
      case IMUL(_) => GetCF(l)
      case MUL(_) => GetCF(l)
      case SHL => Top(l.dst) != (l.dst2 % 2 == 1)
      case SHR => Top(l.src1)
      case SAR => false
      case LOGIC => false
    else
      OF in l.flags
  }

  /** SET_BIT(w, f, m). */
  function SetBit(x: set<FlagBit>, f: bool, m: FlagBit): set<FlagBit> {
    if f then x + {m} else x - {m}
  }

  // ----- What a getter says against what the architecture says -----

  predicate Agrees(got: bool, want: Option<bool>) {
    want.Some? ==> got == want.value
  }

  /** Every defined flag reads as it should. */
  predicate Shows(l: Lazy, f: Flags) {
    && Agrees(GetCF(l), f.cf)
    && Agrees(GetPF(l), f.pf)
    && Agrees(GetAF(l), f.af)
    && Agrees(GetZF(l), f.zf)
    && Agrees(GetSF(l), f.sf)
    && Agrees(GetOF(l), f.of)
  }

  lemma RowIsParity(n: nat)
    requires n < 16
    ensures ROW[n] == (Ones4(n) % 2 == 0)
  {
  }

  /** The table holds the parity of its index. */
  lemma ParityTableCorrect(v: nat)
    requires v < 256
    ensures ParityTab(v) == (Ones8(v) % 2 == 0)
  {
    hide Ones4;
    RowIsParity(v / 16);
    RowIsParity(v % 16);
  }

  lemma SextLowBits(w: Width, v: int)
    ensures Sext(w, v) % 256 == v % 256
    ensures Sext(w, v) % Size(w) == v % Size(w)
  {
    LowByte(w, v);
    LowByte(w, Sext(w, v));
    SextMod(w, v);
  }

  lemma SextMod(w: Width, v: int)
    ensures Sext(w, v) % Size(w) == v % Size(w)
  {
    var u := v % Size(w);
    var up := if u >= Half(w) then 1 else 0;
    match w
    case W8 => DivModUnique(Sext(w, v), 0x100, up * 0xFF_FFFF, u);
    case W16 => DivModUnique(Sext(w, v), 0x1_0000, up * 0xFFFF, u);
    case W32 =>
  }

  lemma LowByte(w: Width, v: int)
    ensures v % Size(w) % 256 == v % 256
  {
    var k, u := v / Size(w), v % Size(w);
    match w
    case W8 =>
    case W16 => DivModUnique(v, 256, 0x100 * k + u / 256, u % 256);
    case W32 => DivModUnique(v, 256, 0x100_0000 * k + u / 256, u % 256);
  }

  /** PF, ZF and SF of a result that was stored sign-extended. */
  lemma ResultFlags(w: Width, v: int)
    ensures var d := Sext(w, v);
            && Some(ParityTab(d % 256)) == Parity(v)
            && Some(d == 0) == Zero(w, v)
            && Some(Top(d)) == Sign(w, v)
            && d % Size(w) == v % Size(w)
  {
    hide ParityTab, Ones8;
    ParityTableCorrect(v % 256);
    SextLowBits(w, v);
  }

  // ----- What the instruction helpers leave in cc and flags -----

  const ALL: set<FlagBit> := {CF, PF, AF, ZF, SF, OF}
  const NO_AF: set<FlagBit> := {CF, PF, ZF, SF, OF}
  const NO_CF: set<FlagBit> := {PF, AF, ZF, SF, OF}

  /** ADD and ADC. */
  function AfterAdd(l: Lazy, w: Width, a: word, b: word, c: bool): Lazy {
    var s1, s2 := Sext(w, a), Sext(w, b);
    l.(op := if c then ADC else ADD, src1 := s1, src2 := s2, dst := Sext(w, (s1 + s2 + Bit(c)) % M32), mask := ALL)
  }

  /** SUB, CMP and SBB. */
  function AfterSub(l: Lazy, w: Width, a: word, b: word, c: bool): Lazy {
    var s1, s2 := Sext(w, a), Sext(w, b);
    l.(op := if c then SBB else SUB, src1 := s1, src2 := s2, dst := Sext(w, (s1 - s2 - Bit(c)) % M32), mask := ALL)
  }

  /** INC and DEC put the carry they must keep into flags. */
  function AfterInc(l: Lazy, w: Width, a: word): Lazy {
    l.(op := INC(w), dst := Sext(w, (Sext(w, a) + 1) % M32), mask := NO_CF, flags := SetBit(l.flags, GetCF(l), CF))
  }

  function AfterDec(l: Lazy, w: Width, a: word): Lazy {
    l.(op := DEC(w), dst := Sext(w, (Sext(w, a) - 1) % M32), mask := NO_CF, flags := SetBit(l.flags, GetCF(l), CF))
  }

  function AfterNeg(l: Lazy, w: Width, a: word): Lazy {
    l.(op := NEG(w), src1 := Sext(w, a), dst := Sext(w, (0 - Sext(w, a)) % M32), mask := ALL)
  }

  function AfterLogic(l: Lazy, w: Width, v: word): Lazy {
    l.(op := LOGIC, dst := Sext(w, v), mask := NO_AF)
  }

  /**
   (x >> (BIT - n)) & 1.  Beyond the operand size the C shift count is negative; the
   Cortex-M33 then delivers 0.
   */
  function ShlOut(w: Width, x: nat, n: nat): (b: nat)
    ensures b < 2
  {
    if n <= Bits(w) then x / Pow2(Bits(w) - n) % 2 else 0
  }

  /** Shifts; a zero count leaves everything alone. */
  function AfterShl(l: Lazy, w: Width, a: word, n: nat): Lazy {
    var x := Un(w, a);
    if n == 0 then l
    else l.(op := SHL, dst := Sext(w, x * Pow2(n) % M32), dst2 := ShlOut(w, x, n), mask := NO_AF)
  }

  function AfterShr(l: Lazy, w: Width, a: word, n: nat): Lazy {
    var x := Un(w, a);
    if n == 0 then l
    else l.(op := SHR, src1 := Sext(w, x), dst := Sext(w, x / Pow2(n)), dst2 := x / Pow2(n - 1) % 2, mask := NO_AF)
  }

  /** The arithmetic shift works on the signed 32-bit value and is not extended again. */
  function AfterSar(l: Lazy, w: Width, a: word, n: nat): Lazy {
    var x := Signed(W32, Sext(w, a));
    if n == 0 then l
    else l.(op := SAR, dst := x / Pow2(n) % M32, dst2 := x / Pow2(n - 1) % 2, mask := NO_AF)
  }

  /** IMUL: a 32-bit product for bytes and words, a 64-bit one for double words. */
  function AfterImul(l: Lazy, w: Width, a: word, b: word): Lazy {
    var s1, s2 := Sext(w, a), Sext(w, b);
    var p := Signed(W32, s1) * Signed(W32, s2);
    if w == W32 then l.(op := IMUL(w), src1 := s1, src2 := s2, dst := p % M32, dst2 := p / M32 % M32, mask := ALL)
    else l.(op := IMUL(w), src1 := s1, src2 := s2, dst := s1 * s2 % M32, mask := ALL)
  }

  function AfterMul(l: Lazy, w: Width, a: word, b: word): Lazy {
    var p := Un(w, a) * Un(w, b);
    match w
    case W8 => l.(op := MUL(w), src1 := Un(w, a), src2 := Un(w, b), dst := Sext(W16, p % M32), mask := ALL)
    case W16 => l.(op := MUL(w), src1 := Un(w, a), src2 := Un(w, b), dst := p % M32, mask := ALL)
    case W32 => l.(op := MUL(w), src1 := a, src2 := b, dst := p % M32, dst2 := p / M32 % M32, mask := ALL)
  }

  /** CLC, STC, CMC and BT. */
  function AfterSetCf(l: Lazy, c: bool): Lazy {
    l.(mask := l.mask - {CF}, flags := SetBit(l.flags, c, CF))
  }

  /** The end of every rotate: CF and OF go to flags. */
  function WriteCfOf(l: Lazy, c: bool, o: bool): Lazy {
    l.(mask := l.mask - {CF, OF}, flags := SetBit(SetBit(l.flags, c, CF), o, OF))
  }

  /** What a rotate by `y` stores, with `c` the carry it reads. */
  function RotateRes(k: Turn, w: Width, x: nat, y: nat, c: bool): (res: word)
    requires y <= Bits(w)
  {
    var b := Bits(w);
    if y == 0 then x % M32
    else
      match k
      case ROL => Sext(w, Or(Shl32(x, y), Shr32(x, b - y)))
      case ROR => Sext(w, Or(Shr32(x, y), Shl32(x, b - y)))
      case RCL => Sext(w, Or(Or(Shl32(x, y), Shl32(Bit(c), y - 1)), if y != 1 then Shr32(x, b + 1 - y) else 0))
      case RCR => Sext(w, Or(Or(Shr32(x, y), Shl32(Bit(c), b - y)), if y != 1 then Shl32(x, b + 1 - y) else 0))
  }

  /** Bit BIT - 1 of a word, and the bit below it. */
  predicate TopBit(w: Width, v: nat) { v / Half(w) % 2 == 1 }
  predicate NextBit(w: Width, v: nat) { v / (Half(w) / 2) % 2 == 1 }

  /** The CF and OF that go with the result. */
  function RotateOut(k: Turn, w: Width, x: nat, y: nat, res: word): (r: (bool, bool))
    requires y <= Bits(w)
  {
    match k
    case ROL => (res % 2 == 1, Top(res) != (res % 2 == 1))
    case ROR => (TopBit(w, res), TopBit(w, res) != NextBit(w, res))
    case RCL => var c := Shr32(x, Bits(w) - y) % 2 == 1; (c, Top(res) != c)
    case RCR => (TopBit(w, Sext(w, Shl32(x, Bits(w) - y))), TopBit(w, res) != NextBit(w, res))
  }

  /** ROL and ROR take the count modulo the operand size, RCL and RCR modulo one more. */
  function RotateCount(k: Turn, w: Width, n: nat): (y: nat)
    ensures y <= Bits(w)
  {
    if ThroughCarry(k) then n % 32 % (Bits(w) + 1) else n % Bits(w)
  }

  /** ROL and ROR leave the flags alone for a count of 0 before masking, RCL and RCR after. */
  function AfterRotate(l: Lazy, k: Turn, w: Width, a: word, n: nat): Lazy {
    var x, y := Un(w, a), RotateCount(k, w, n);
    var (c, o) := RotateOut(k, w, x, y, RotateRes(k, w, x, y, GetCF(l)));
    if (if ThroughCarry(k) then y else n) == 0 then l else WriteCfOf(l, c, o)
  }

  const LOW: set<FlagBit> := {CF, Other(1), PF, Other(3), AF, Other(5), ZF, SF}

  /** The flag bits of AH; bit 1 always reads as one, bits 3 and 5 as zero. */
  function AhBits(ah: nat): (x: set<FlagBit>) {
    SetBit(SetBit(SetBit(SetBit(SetBit({Other(1)}, ah % 2 == 1, CF), ah / 4 % 2 == 1, PF), ah / 16 % 2 == 1, AF),
                  ah / 64 % 2 == 1, ZF), ah / 128 % 2 == 1, SF)
  }

  /** SAHF keeps a lazy OF lazy. */
  function AfterSahf(l: Lazy, ah: nat): Lazy {
    l.(mask := l.mask * {OF}, flags := l.flags - LOW + AhBits(ah))
  }

  /** refresh_flags, and then the mask is cleared. */
  function Refreshed(l: Lazy): set<FlagBit> {
    SetBit(SetBit(SetBit(SetBit(SetBit(SetBit(l.flags, GetCF(l), CF), GetPF(l), PF), GetAF(l), AF),
                         GetZF(l), ZF), GetSF(l), SF), GetOF(l), OF)
  }

  function AfterRefresh(l: Lazy): Lazy {
    l.(flags := Refreshed(l), mask := {})
  }

  function Exec(l: Lazy, i: Instr): Lazy
    requires Defined(i)
  {
    match i
    case Add(w, a, b) => AfterAdd(l, w, a, b, false)
    case Adc(w, a, b) => AfterAdd(l, w, a, b, GetCF(l))
    case Sub(w, a, b) => AfterSub(l, w, a, b, false)
    case Sbb(w, a, b) => AfterSub(l, w, a, b, GetCF(l))
    case Inc(w, a) => AfterInc(l, w, a)
    case Dec(w, a) => AfterDec(l, w, a)
    case Neg(w, a) => AfterNeg(l, w, a)
    case Logic(w, v) => AfterLogic(l, w, v)
    case Shl(w, a, n) => AfterShl(l, w, a, n)
    case Shr(w, a, n) => AfterShr(l, w, a, n)
    case Sar(w, a, n) => AfterSar(l, w, a, n)
    case MulS(w, a, b) => AfterImul(l, w, a, b)
    case MulU(w, a, b) => AfterMul(l, w, a, b)
    case SetCf(c) => AfterSetCf(l, c)
    case Cmc => AfterSetCf(l, !GetCF(l))
    case Rotate(k, w, a, n) => AfterRotate(l, k, w, a, n)
    case Sahf(ah) => AfterSahf(l, ah)
    case Refresh => AfterRefresh(l)
  }

  // Arithmetic modulo the operand size.

  lemma ModOnce(w: Width, v: int)
    requires -(Size(w) as int) <= v < 2 * Size(w)
    ensures v % Size(w) == if v < 0 then v + Size(w) else if v < Size(w) then v else v - Size(w)
  {
    match w case W8 => case W16 => case W32 =>
  }

  lemma ModOfMod(w: Width, x: int)
    ensures (x % M32) % Size(w) == x % Size(w)
  {
    var k, y := x / M32, x % M32;
    match w
    case W8 => DivModUnique(x, 0x100, 0x100_0000 * k + y / 0x100, y % 0x100);
    case W16 => DivModUnique(x, 0x1_0000, 0x1_0000 * k + y / 0x1_0000, y % 0x1_0000);
    case W32 =>
  }

  lemma ModShift(w: Width, x: int, k: int)
    requires -2 <= k <= 2
    ensures (x + k * (M32 - Size(w))) % Size(w) == x % Size(w)
  {
    match w
    case W8 => assert x + k * (M32 - 0x100) == x + 0x100 * (k * 0xFF_FFFF); ModAdd(x, k * 0xFF_FFFF, 0x100);
    case W16 => assert x + k * (M32 - 0x1_0000) == x + 0x1_0000 * (k * 0xFFFF); ModAdd(x, k * 0xFFFF, 0x1_0000);
    case W32 =>
  }

  lemma ModAdd(x: int, k: int, s: nat)
    requires s == 0x100 || s == 0x1_0000
    ensures (x + s * k) % s == x % s
  {
  }

  /** Sext is the operand, plus M32 - Size for a negative one. */
  lemma SextIs(w: Width, a: word)
    ensures 0 <= Un(w, a) < Size(w) == 2 * Half(w)
    ensures Sext(w, a) == if Un(w, a) >= Half(w) then Un(w, a) + M32 - Size(w) else Un(w, a)
  {
  }

  /** Adding whole multiples of M32 - Size to a 32-bit sum leaves its low bits alone. */
  lemma ExtendedSum(w: Width, sum: int, v: int, k: int)
    requires -2 <= k <= 2 && sum == v + k * (M32 - Size(w))
    ensures Sext(w, sum % M32) == Sext(w, v)
  {
    ModOfMod(w, sum);
    ModShift(w, v, k);
  }

  /** The 32-bit sum or difference of sign-extended operands has the right low bits. */
  lemma SumOfSext(w: Width, a: word, b: word, k: int)
    requires -1 <= k <= 1
    ensures Sext(w, (Sext(w, a) + Sext(w, b) + k) % M32) == Sext(w, Un(w, a) + Un(w, b) + k)
    ensures Sext(w, (Sext(w, a) - Sext(w, b) + k) % M32) == Sext(w, Un(w, a) - Un(w, b) + k)
  {
    hide Sext, Un, Half;
    SextIs(w, a);
    SextIs(w, b);
    var i, j := if Un(w, a) >= Half(w) then 1 else 0, if Un(w, b) >= Half(w) then 1 else 0;
    ExtendedSum(w, Sext(w, a) + Sext(w, b) + k, Un(w, a) + Un(w, b) + k, i + j);
    ExtendedSum(w, Sext(w, a) - Sext(w, b) + k, Un(w, a) - Un(w, b) + k, i - j);
  }

  lemma AddCarry(w: Width, a: word, b: word, c: bool)
    ensures var d := Sext(w, Un(w, a) + Un(w, b) + Bit(c));
            AddFlags(w, a, b, c).cf == Some(if c then d <= Sext(w, b) else d < Sext(w, b))
  {
    hide Parity, Zero, Sign, Fits, Sext;
    var v := Un(w, a) + Un(w, b) + Bit(c);
    SextIs(w, a);
    SextIs(w, b);
    SextMonotone(w, v, b);
    ModOnce(w, v);
  }

  lemma AddOverflow(w: Width, a: word, b: word, c: bool)
    ensures var s1, s2, d := Sext(w, a), Sext(w, b), Sext(w, Un(w, a) + Un(w, b) + Bit(c));
            AddFlags(w, a, b, c).of == Some(Top(s1) == Top(s2) && Top(d) != Top(s2))
  {
    hide Parity, Zero, Sign, Sext, Top, Un;
    UnInside(w, a);
    UnInside(w, b);
    TopIsSign(w, a);
    TopIsSign(w, b);
    TopIsSign(w, Un(w, a) + Un(w, b) + Bit(c));
    ModOnce(w, Un(w, a) + Un(w, b) + Bit(c));
  }

  lemma Bit4Sum(x: nat, y: nat, c: bool)
    ensures (x % 16 + y % 16 + Bit(c) >= 16) ==
            (((x / 16 % 2 == 1) != (y / 16 % 2 == 1)) != ((x + y + Bit(c)) / 16 % 2 == 1))
  {
    var p, q := x / 16, y / 16;
    var t := x % 16 + y % 16 + Bit(c);
    assert x + y + Bit(c) == 16 * (p + q) + t;
    assert (x + y + Bit(c)) / 16 == p + q + (if t >= 16 then 1 else 0);
  }

  /** Reducing to the operand size keeps the low nibble and bit 4. */
  lemma LowBits(w: Width, a: int)
    ensures a % Size(w) % 16 == a % 16 && a % Size(w) / 16 % 2 == a / 16 % 2
  {
    var k, u := a / Size(w), a % Size(w);
    var p := u / 16;
    match w
    case W8 => DivModUnique(a, 16, 16 * k + p, u % 16); DivModUnique(16 * k + p, 2, 8 * k + p / 2, p % 2);
    case W16 => DivModUnique(a, 16, 0x1000 * k + p, u % 16); DivModUnique(0x1000 * k + p, 2, 0x800 * k + p / 2, p % 2);
    case W32 => DivModUnique(a, 16, 0x1000_0000 * k + p, u % 16);
                DivModUnique(0x1000_0000 * k + p, 2, 0x800_0000 * k + p / 2, p % 2);
  }

  lemma Bit4OfSext(w: Width, v: int)
    ensures Bit4(Sext(w, v)) == (v / 16 % 2 == 1)
  {
    SextLowBits(w, v);
    LowBits(w, v);
    LowBits(w, Sext(w, v));
  }

  lemma AddAux(w: Width, a: word, b: word, c: bool)
    ensures var s1, s2, d := Sext(w, a), Sext(w, b), Sext(w, Un(w, a) + Un(w, b) + Bit(c));
            AddFlags(w, a, b, c).af == Some((Bit4(s1) != Bit4(s2)) != Bit4(d))
  {
    hide Sext, Bit4, Parity, Zero, Sign, Fits;
    Bit4OfSext(w, a);
    Bit4OfSext(w, b);
    Bit4OfSext(w, Un(w, a) + Un(w, b) + Bit(c));
    Bit4Sum(Un(w, a), Un(w, b), c);
    LowBits(w, a);
    LowBits(w, b);
  }

  lemma AddShows(l: Lazy, w: Width, a: word, b: word, c: bool)
    ensures Shows(AfterAdd(l, w, a, b, c), AddFlags(w, a, b, c))
  {
    hide ParityTab, Sext, Parity, Zero, Sign, Top, Fits, Bit4;
    SumOfSext(w, a, b, Bit(c));
    ResultFlags(w, Un(w, a) + Un(w, b) + Bit(c));
    AddCarry(w, a, b, c);
    AddOverflow(w, a, b, c);
    AddAux(w, a, b, c);
  }

  // ----- Subtraction -----

  lemma SubOverflow(w: Width, a: word, b: word, c: bool)
    ensures var s1, s2, d := Sext(w, a), Sext(w, b), Sext(w, Un(w, a) - Un(w, b) - Bit(c));
            SubFlags(w, a, b, c).of == Some(Top(s1) != Top(s2) && Top(d) != Top(s1))
  {
    hide Parity, Zero, Sign, Sext, Top, Un;
    UnInside(w, a);
    UnInside(w, b);
    TopIsSign(w, a);
    TopIsSign(w, b);
    TopIsSign(w, Un(w, a) - Un(w, b) - Bit(c));
    ModOnce(w, Un(w, a) - Un(w, b) - Bit(c));
  }

  lemma Bit4Difference(x: nat, y: nat, c: bool)
    ensures (x % 16 < y % 16 + Bit(c)) == (((x / 16 % 2 == 1) != (y / 16 % 2 == 1)) != ((x - y - Bit(c)) / 16 % 2 == 1))
  {
    var p, q := x / 16, y / 16;
    var t := x % 16 - y % 16 - Bit(c);
    if t < 0 {
      DivModUnique(x - y - Bit(c), 16, p - q - 1, t + 16);
    } else {
      DivModUnique(x - y - Bit(c), 16, p - q, t);
    }
  }

  lemma SubAux(w: Width, a: word, b: word, c: bool)
    ensures var s1, s2, d := Sext(w, a), Sext(w, b), Sext(w, Un(w, a) - Un(w, b) - Bit(c));
            SubFlags(w, a, b, c).af == Some((Bit4(s1) != Bit4(s2)) != Bit4(d))
  {
    hide Sext, Bit4, Parity, Zero, Sign, Fits;
    Bit4OfSext(w, a);
    Bit4OfSext(w, b);
    Bit4OfSext(w, Un(w, a) - Un(w, b) - Bit(c));
    Bit4Difference(Un(w, a), Un(w, b), c);
    LowBits(w, a);
    LowBits(w, b);
  }

  lemma SubShows(l: Lazy, w: Width, a: word, b: word, c: bool)
    ensures Shows(AfterSub(l, w, a, b, c), SubFlags(w, a, b, c))
  {
    hide ParityTab, Sext, Parity, Zero, Sign, Top, Fits, Bit4;
    SumOfSext(w, a, b, if c then -1 else 0);
    ResultFlags(w, Un(w, a) - Un(w, b) - Bit(c));
    SextMonotone(w, a, b);
    SubOverflow(w, a, b, c);
    SubAux(w, a, b, c);
  }

  // ----- INC, DEC, NEG, logic -----

  lemma IncOverflow(w: Width, a: word)
    ensures AddFlags(w, a, 1, false).of == Some(Sext(w, Un(w, a) + 1) == Sext(w, Half(w)))
  {
    hide Parity, Zero, Sign, Sext;
    SextIs(w, a);
    OneIsOne(w);
    SextMonotone(w, Un(w, a) + 1, Half(w));
    ModOnce(w, Un(w, a) + 1);
    ModOnce(w, Half(w));
    match w case W8 => case W16 => case W32 =>
  }

  lemma DecOverflow(w: Width, a: word)
    ensures SubFlags(w, a, 1, false).of == Some(Sext(w, Un(w, a) - 1) == Sext(w, Half(w) - 1))
  {
    hide Parity, Zero, Sign, Sext;
    SextIs(w, a);
    OneIsOne(w);
    SextMonotone(w, Un(w, a) - 1, Half(w) - 1);
    ModOnce(w, Un(w, a) - 1);
    ModOnce(w, Half(w) - 1);
    match w case W8 => case W16 => case W32 =>
  }

  lemma NegOverflow(w: Width, a: word)
    ensures SubFlags(w, 0, a, false).of == Some(Sext(w, 0 - Un(w, a)) == Sext(w, Half(w)))
  {
    hide Parity, Zero, Sign, Sext;
    SextIs(w, a);
    OneIsOne(w);
    SextMonotone(w, 0 - Un(w, a), Half(w));
    ModOnce(w, 0 - Un(w, a));
    ModOnce(w, Half(w));
    match w case W8 => case W16 => case W32 =>
  }

  lemma NibbleSteps(x: nat)
    ensures ((x + 1) % 16 == 0) == (x % 16 == 15)
    ensures ((x - 1) % 16 == 15) == (x % 16 == 0)
    ensures ((0 - x) % 16 == 0) == (x % 16 == 0)
  {
    var k, r := x / 16, x % 16;
    if r < 15 { DivModUnique(x + 1, 16, k, r + 1); } else { DivModUnique(x + 1, 16, k + 1, 0); }
    if r > 0 { DivModUnique(x - 1, 16, k, r - 1); } else { DivModUnique(x - 1, 16, k - 1, 15); }
    if r > 0 { DivModUnique(0 - x, 16, -k - 1, 16 - r); } else { DivModUnique(0 - x, 16, -k, 0); }
  }

  lemma StepAux(w: Width, a: word)
    ensures AddFlags(w, a, 1, false).af == Some(Sext(w, Un(w, a) + 1) % 16 == 0)
    ensures SubFlags(w, a, 1, false).af == Some(Sext(w, Un(w, a) - 1) % 16 == 15)
    ensures SubFlags(w, 0, a, false).af == Some(Sext(w, 0 - Un(w, a)) % 16 != 0)
  {
    hide Parity, Zero, Sign, Fits, Sext;
    NibbleOfSext(w, Un(w, a) + 1);
    NibbleOfSext(w, Un(w, a) - 1);
    NibbleOfSext(w, 0 - Un(w, a));
    LowBits(w, a);
    NibbleSteps(Un(w, a));
  }

  lemma NegCarry(w: Width, a: word)
    ensures SubFlags(w, 0, a, false).cf == Some(Sext(w, 0 - Un(w, a)) != 0)
  {
    hide Parity, Zero, Sign, Fits;
    ModOnce(w, 0 - Un(w, a));
    OneIsOne(w);
  }

  lemma NibbleOfSext(w: Width, v: int)
    ensures Sext(w, v) % 16 == v % 16
  {
    hide Sext;
    SextLowBits(w, v);
    LowBits(w, v);
    LowBits(w, Sext(w, v));
  }

  lemma SumOfSextOne(w: Width, a: word, k: int)
    requires k == 1 || k == -1
    ensures Sext(w, (Sext(w, a) + k) % M32) == Sext(w, Un(w, a) + k)
    ensures Sext(w, (0 - Sext(w, a)) % M32) == Sext(w, 0 - Un(w, a))
  {
    hide Sext;
    SumOfSext(w, a, 0, k);
    SumOfSext(w, 0, a, 0);
    SextIs(w, 0);
    SextIs(w, a);
  }

  lemma IncShows(l: Lazy, w: Width, a: word, c: Option<bool>)
    requires Agrees(GetCF(l), c)
    ensures Shows(AfterInc(l, w, a), AddFlags(w, a, 1, false).(cf := c))
  {
    hide ParityTab, Sext, Parity, Zero, Sign, Top, Fits;
    SumOfSextOne(w, a, 1);
    ResultFlags(w, Un(w, a) + 1);
    OneIsOne(w);
    IncOverflow(w, a);
    StepAux(w, a);
  }

  lemma DecShows(l: Lazy, w: Width, a: word, c: Option<bool>)
    requires Agrees(GetCF(l), c)
    ensures Shows(AfterDec(l, w, a), SubFlags(w, a, 1, false).(cf := c))
  {
    hide ParityTab, Sext, Parity, Zero, Sign, Top, Fits;
    SumOfSextOne(w, a, -1);
    ResultFlags(w, Un(w, a) - 1);
    OneIsOne(w);
    DecOverflow(w, a);
    StepAux(w, a);
  }

  lemma OneIsOne(w: Width)
    ensures Un(w, 1) == 1 && Un(w, 0) == 0
  {
    match w case W8 => case W16 => case W32 =>
  }

  lemma NegShows(l: Lazy, w: Width, a: word)
    ensures Shows(AfterNeg(l, w, a), SubFlags(w, 0, a, false))
  {
    hide ParityTab, Sext, Parity, Zero, Sign, Top, Fits, Un, Signed, Size, Half;
    SumOfSextOne(w, a, 1);
    ResultFlags(w, 0 - Un(w, a));
    OneIsOne(w);
    NegOverflow(w, a);
    StepAux(w, a);
    NegCarry(w, a);
  }

  lemma LogicShows(l: Lazy, w: Width, v: word, f: Flags)
    ensures Shows(AfterLogic(l, w, v), Step(f, Logic(w, v)))
  {
    hide ParityTab, Sext, Parity, Zero, Sign, Top;
    ResultFlags(w, v);
  }

  // ----- Shifts -----

  lemma SextOfMod(w: Width, v: int)
    ensures Sext(w, v % M32) == Sext(w, v)
  {
    ModOfMod(w, v);
  }

  lemma ShlCarry(w: Width, x: nat, n: nat)
    requires n <= Bits(w)
    ensures x / Pow2(Bits(w) - n) == x * Pow2(n) / Size(w)
  {
    hide Pow2;
    ShiftCancel(x, n, Bits(w) - n);
    SizeIsPow2(w);
  }

  lemma SizeIsPow2(w: Width)
    ensures Pow2(Bits(w)) == Size(w)
  {
    Powers();
  }

  lemma ShlShows(l: Lazy, w: Width, a: word, n: nat, f: Flags)
    requires 0 < n < 32
    ensures Shows(AfterShl(l, w, a, n), Step(f, Shl(w, a, n)))
  {
    hide ParityTab, Sext, Parity, Zero, Sign, Top, Pow2;
    var v := Un(w, a) * Pow2(n);
    ResultFlags(w, v);
    SextOfMod(w, v);
    if n <= Bits(w) { ShlCarry(w, Un(w, a), n); }
    TopIsSign(w, v);
  }

  lemma TopIsSign(w: Width, v: int)
    ensures Top(Sext(w, v)) == (v % Size(w) >= Half(w))
  {
  }

  lemma ShrShows(l: Lazy, w: Width, a: word, n: nat, f: Flags)
    requires 0 < n < 32
    ensures Shows(AfterShr(l, w, a, n), Step(f, Shr(w, a, n)))
  {
    hide ParityTab, Sext, Parity, Zero, Sign, Top, Pow2;
    ResultFlags(w, Un(w, a) / Pow2(n));
    TopIsSign(w, Un(w, a));
    SextIs(w, a);
    ModOnce(w, Un(w, a));
  }

  /** A signed `w`-bit value taken modulo 2^32 is its own sign extension. */
  lemma SignedWord(w: Width, v: int)
    requires Fits(w, v)
    ensures v % M32 == Sext(w, v)
  {
    ModOnce(w, v);
    ModOnce(W32, v);
    match w case W8 => case W16 => case W32 =>
  }

  lemma SignedOfSext(w: Width, a: word)
    ensures Signed(W32, Sext(w, a)) == Signed(w, a) && Fits(w, Signed(w, a))
  {
    SextIs(w, a);
    match w case W8 => case W16 => case W32 =>
  }

  /** Dividing by a positive number moves towards zero, or to -1 at most. */
  lemma QuotientFits(w: Width, v: int, p: nat)
    requires Fits(w, v) && p > 0
    ensures Fits(w, v / p)
  {
    hide Half;
    QuotientBetween(v, p);
    HalfPositive(w);
  }

  lemma HalfPositive(w: Width)
    ensures Half(w) >= 1
  {
  }

  lemma QuotientBetween(v: int, p: int)
    requires p > 0
    ensures v >= 0 ==> 0 <= v / p <= v
    ensures v < 0 ==> v <= v / p < 0
  {
    var q, r := v / p, v % p;
    ProductSign(q, p);
    ProductSign(q + 1, p);
    MulDistrib(q, 1, p);
    Between(v, q, r, q * p, p);
  }

  lemma Between(v: int, q: int, r: int, t: int, p: int)
    requires v == t + r && 0 <= r < p
    requires q >= 0 ==> t >= q
    requires q < 0 ==> t <= -p
    requires q + 1 <= 0 ==> t + p <= q + 1
    ensures v >= 0 ==> 0 <= q <= v
    ensures v < 0 ==> v <= q < 0
  {
  }

  lemma ProductSign(q: int, p: int)
    requires p > 0
    ensures q >= 0 ==> q * p >= q
    ensures q <= 0 ==> q * p <= q
    ensures q < 0 ==> q * p <= -p
  {
    NegMul(q, p);
    if q < 0 {
      MulGe(-q, p);
      MulGe(p, -q);
      MulCommutes(p, -q);
    } else {
      MulGe(p, q);
      MulCommutes(p, q);
    }
  }

  lemma NegMul(q: int, p: int)
    ensures (-q) * p == -(q * p)
  {
  }

  lemma MulCommutes(a: int, b: int)
    ensures a * b == b * a
  {
  }

  lemma SarShows(l: Lazy, w: Width, a: word, n: nat, f: Flags)
    requires 0 < n < 32
    ensures Shows(AfterSar(l, w, a, n), Step(f, Sar(w, a, n)))
  {
    hide ParityTab, Sext, Parity, Zero, Sign, Top, Pow2, Fits, Signed;
    var v := Signed(w, a) / Pow2(n);
    SignedOfSext(w, a);
    QuotientFits(w, Signed(w, a), Pow2(n));
    SignedWord(w, v);
    ResultFlags(w, v);
  }

  // ----- Multiplication: CF and OF say that the product does not fit -----

  lemma SignedBound(w: Width, a: word)
    ensures -(Half(w) as int) <= Signed(w, a) < Half(w)
  {
    SextIs(w, a);
  }

  lemma ProductOfWords(s1: word, s2: word)
    ensures s1 * s2 % M32 == Signed(W32, s1) * Signed(W32, s2) % M32
  {
    var a, b := Signed(W32, s1), Signed(W32, s2);
    var i, j := if s1 >= Half(W32) then 1 else 0, if s2 >= Half(W32) then 1 else 0;
    assert s1 == a + i * M32 && s2 == b + j * M32;
    assert s1 * s2 == a * b + (a * j + b * i + i * j * M32) * M32 by {
      if i == 1 && j == 1 {
        assert (a + M32) * (b + M32) == a * b + (a + b + M32) * M32 by {
          MulDistrib(a, M32, b + M32);
          assert a * (b + M32) == a * b + a * M32;
        }
      } else if i == 1 {
        MulDistrib(a, M32, b);
      } else if j == 1 {
        assert a * (b + M32) == a * b + a * M32;
      }
    }
    ModMultiple(a * b, a * j + b * i + i * j * M32, M32);
  }

  /** A product of bytes or words overflows exactly when it is not its own sign extension. */
  lemma NarrowOverflow(w: Width, p: int)
    requires w != W32 && -(Half(w) * Half(w)) <= p <= Half(w) * Half(w)
    ensures (Sext(w, p % M32) != p % M32) == !Fits(w, p)
  {
    SextOfMod(w, p);
    if Fits(w, p) {
      SignedWord(w, p);
    } else {
      ModOnce(W32, p);
      match w case W8 => case W16 =>
    }
  }

  lemma WideOverflow(p: int)
    requires -(Half(W32) * Half(W32)) <= p <= Half(W32) * Half(W32)
    ensures ((if Top(p % M32) then M32 - 1 else 0) != p / M32 % M32) == !Fits(W32, p)
  {
    var q, r := p / M32, p % M32;
    assert p == q * M32 + r;
    assert -0x8000_0000 <= q <= 0x8000_0000;
    ModOnce(W32, q);
  }

  lemma ImulShows(l: Lazy, w: Width, a: word, b: word, f: Flags)
    ensures Shows(AfterImul(l, w, a, b), Step(f, MulS(w, a, b)))
  {
    hide ParityTab, Sext, Top, Fits, Signed;
    var p := Signed(w, a) * Signed(w, b);
    SignedOfSext(w, a);
    SignedOfSext(w, b);
    SignedBound(w, a);
    SignedBound(w, b);
    ProductBound(Signed(w, a), Signed(w, b), Half(w));
    if w == W32 {
      WideOverflow(p);
    } else {
      ProductOfWords(Sext(w, a), Sext(w, b));
      NarrowOverflow(w, p);
    }
  }

  lemma MulShows(l: Lazy, w: Width, a: word, b: word, f: Flags)
    ensures Shows(AfterMul(l, w, a, b), Step(f, MulU(w, a, b)))
  {
    hide ParityTab, Top, Fits, Signed, Sext, Half;
    MulCarry(w, Un(w, a), Un(w, b));
  }

  /** The high half of the product is zero exactly when the product fits. */
  lemma MulCarry(w: Width, x: nat, y: nat)
    requires x < Size(w) && y < Size(w)
    ensures w == W8 ==> (Sext(W16, x * y % M32) / 0x100 != 0) == (x * y >= 0x100)
    ensures w == W16 ==> (x * y % M32 / 0x1_0000 != 0) == (x * y >= 0x1_0000)
    ensures w == W32 ==> (x * y / M32 % M32 != 0) == (x * y >= M32)
  {
    hide Sext;
    MulMono(x, y, Size(w) - 1);
    var p := x * y;
    match w
    case W8 => HighByte(p);
    case W16 => assert p < M32;
    case W32 => assert p / M32 < M32;
  }

  lemma HighByte(p: nat)
    requires p <= 255 * 255
    ensures (Sext(W16, p % M32) / 256 != 0) == (p >= 256)
  {
  }

  // ----- Instructions that write some flags and leave the rest lazy -----

  /** A multiplication's OF is still lazy; get_OF then asks get_CF. */
  predicate Pending(l: Lazy) {
    (l.op.IMUL? || l.op.MUL?) && OF in l.mask
  }

  /** The carry of INC and DEC is never derived lazily: the assertion in get_CF holds. */
  predicate Sane(l: Lazy) {
    l.op.INC? || l.op.DEC? ==> CF !in l.mask
  }

  /**
   CLC, STC, CMC and BT are right exactly when no multiplication's overflow is
   still pending, or the carry does not change.
   */
  lemma SetCfExact(l: Lazy, f: Flags, c: bool)
    requires Shows(l, f)
    ensures Shows(AfterSetCf(l, c), f.(cf := Some(c))) <==> (Pending(l) && f.of.Some? ==> c == f.of.value)
  {
    hide ParityTab, Sext;
  }

  /** MUL of 16 by 16 overflows; after STC OF still reads true, after CLC it reads false. */
  lemma MulThenClcExample(l: Lazy, f: Flags)
    ensures var i := MulU(W8, 16, 16);
            && Shows(Exec(l, i), Step(f, i))
            && !Shows(Exec(Exec(l, i), SetCf(false)), Step(Step(f, i), SetCf(false)))
  {
    hide Sext, Shows, GetCF, GetOF, AfterSetCf;
    MulShows(l, W8, 16, 16, f);
    SetCfExact(AfterMul(l, W8, 16, 16), Step(f, MulU(W8, 16, 16)), false);
  }

  /**
   SAHF is right under the same condition: it writes CF from AH and keeps a pending
   overflow pending.
   */
  lemma SahfExact(l: Lazy, f: Flags, ah: nat)
    requires Shows(l, f) && ah < 256
    ensures Shows(AfterSahf(l, ah), Step(f, Sahf(ah))) <==> (Pending(l) && f.of.Some? ==> (ah % 2 == 1) == f.of.value)
  {
    hide ParityTab, Sext, AhBits, SetBit;
    AhMembers(l.flags, ah);
  }

  lemma AhMembers(x: set<FlagBit>, ah: nat)
    ensures var y := x - LOW + AhBits(ah);
            && (CF in y <==> ah % 2 == 1) && (PF in y <==> ah / 4 % 2 == 1) && (AF in y <==> ah / 16 % 2 == 1)
            && (ZF in y <==> ah / 64 % 2 == 1) && (SF in y <==> ah / 128 % 2 == 1) && (OF in y <==> OF in x)
  {
  }

  /** MUL of 16 by 16, then SAHF of a byte without CF: OF reads false. */
  lemma MulThenSahfExample(l: Lazy, f: Flags)
    ensures var i := MulU(W8, 16, 16);
            && Shows(Exec(l, i), Step(f, i))
            && !Shows(Exec(Exec(l, i), Sahf(2)), Step(Step(f, i), Sahf(2)))
  {
    hide Sext, Shows, GetCF, GetOF, AfterSahf;
    MulShows(l, W8, 16, 16, f);
    SahfExact(AfterMul(l, W8, 16, 16), Step(f, MulU(W8, 16, 16)), 2);
  }

  // ----- Rotates -----

  lemma WriteShows(l: Lazy, f: Flags, c: bool, o: bool, wantC: Option<bool>, wantO: Option<bool>)
    requires Shows(l, f)
    ensures Shows(WriteCfOf(l, c, o), f.(cf := wantC, of := wantO)) <==> Agrees(c, wantC) && Agrees(o, wantO)
  {
    hide ParityTab, Sext;
  }

  lemma TopBitIs(w: Width, v: nat)
    ensures TopBit(w, v) == (v % Size(w) >= Half(w))
    ensures NextBit(w, v) == SecondBit(w, v)
  {
    var q, r := v / Size(w), v % Size(w);
    var h := Half(w);
    var t := if r >= h then 1 else 0;
    match w
    case W8 => BitsOf(v, 0x80); BitsOf(v, 0x40);
    case W16 => BitsOf(v, 0x8000); BitsOf(v, 0x4000);
    case W32 => BitsOf(v, 0x8000_0000); BitsOf(v, 0x4000_0000);
  }

  lemma BitsOf(v: nat, h: nat)
    requires h > 0
    ensures (v / h % 2 == 1) == (v % (2 * h) >= h)
  {
    var q, r := v / h, v % h;
    Double(q / 2, q % 2, h);
    BitTimes(q % 2, h, 0, 1);
    DivModUnique(v, 2 * h, q / 2, q % 2 * h + r);
  }

  lemma SameRem(w: Width, n: nat)
    ensures Rem(n % 32, Bits(w)) == n % Bits(w)
  {
    var q, r := n / 32, n % 32;
    match w
    case W8 => DivModUnique(n, 8, 4 * q + r / 8, r % 8);
    case W16 => DivModUnique(n, 16, 2 * q + r / 16, r % 16);
    case W32 => DivModUnique(r, 32, 0, r);
  }

  /** The stored result of ROL and ROR is the operand rotated one bit at a time. */
  lemma TurnValue(k: Turn, w: Width, a: word, n: nat, c: bool)
    requires !ThroughCarry(k)
    ensures RotateRes(k, w, Un(w, a), RotateCount(k, w, n), c) % Size(w) == Turned(k, w, a, c, n % 32)
  {
    hide Pow2, Shl32, Shr32, Or, Sext, Left, Right, Un, Size, Rem, LeftTimes, RightTimes;
    var b, x, y := Bits(w), Un(w, a), RotateCount(k, w, n);
    SizeIsPow2(w);
    UnInside(w, a);
    SameRem(w, n);
    WholeTurn(b, x);
    if k.ROL? {
      LeftIs(b, x, n % 32);
      if y > 0 {
        LeftJoined(b, x, y);
        SextMod(w, Or(Shl32(x, y), Shr32(x, b - y)));
      }
    } else {
      RightIs(b, x, n % 32);
      if y > 0 {
        RightJoined(b, x, y);
        SextMod(w, Or(Shr32(x, y), Shl32(x, b - y)));
      }
    }
  }

  lemma UnInside(w: Width, a: word)
    ensures 0 <= Un(w, a) == a % Size(w) < Size(w) <= M32 && Un(w, a) % Size(w) == Un(w, a) == Un(w, a) % M32
  {
    ModOnce(w, Un(w, a));
  }

  /** That of RCL and RCR is the low part of carry and operand rotated together, and CF the top bit. */
  lemma CarryTurnValue(k: Turn, w: Width, a: word, n: nat, c: bool)
    requires ThroughCarry(k) && RotateCount(k, w, n) > 0
    ensures var x, y, r := Un(w, a), RotateCount(k, w, n), Turned(k, w, a, c, n % 32);
            var res := RotateRes(k, w, x, y, c);
            res % Size(w) == r % Size(w) && RotateOut(k, w, x, y, res).0 == (r / Size(w) == 1)
  {
    hide Pow2, Shl32, Shr32, Or, Sext, Left, Right, Top, TopBit, NextBit, Un, Size, Half, LeftTimes, RightTimes;
    var b, x, y := Bits(w), Un(w, a), RotateCount(k, w, n);
    var v := Bit(c) * Pow2(b) + x;
    SizeIsPow2(w);
    UnInside(w, a);
    Factors(b + 1, 0);
    BitTimes(Bit(c), Pow2(b), 0, 1);
    assert Rem(n % 32, b + 1) == y;
    if k.RCL? {
      LeftIs(b + 1, v, n % 32);
      CarryLeft(b, x, Bit(c), y);
      SextMod(w, Or(Or(Shl32(x, y), Shl32(Bit(c), y - 1)), if y != 1 then Shr32(x, b + 1 - y) else 0));
    } else {
      RightIs(b + 1, v, n % 32);
      CarryRight(b, x, Bit(c), y);
      SextMod(w, Or(Or(Shr32(x, y), Shl32(Bit(c), b - y)), if y != 1 then Shl32(x, b + 1 - y) else 0));
      LeavingBit(w, Shl32(x, b - y));
    }
  }

  /** The carry of RCR, taken from a sign-extended shift. */
  lemma LeavingBit(w: Width, v: nat)
    ensures TopBit(w, Sext(w, v)) == (v % Pow2(Bits(w)) / Pow2(Bits(w) - 1) % 2 == 1)
  {
    hide Pow2, Sext;
    SizeIsPow2(w);
    HalfIsPow2(w);
    SextMod(w, v);
    TopBitIs(w, Sext(w, v));
    TopBitIs(w, v % Size(w));
    ModTwice(w, v);
  }

  lemma ModTwice(w: Width, v: int)
    ensures v % Size(w) % Size(w) == v % Size(w)
  {
    DivModUnique(v % Size(w), Size(w), 0, v % Size(w));
  }

  lemma HalfIsPow2(w: Width)
    ensures Pow2(Bits(w) - 1) == Half(w)
  {
    hide Pow2;
    Factors(Bits(w), 0);
    SizeIsPow2(w);
  }

  /** The count that ROL and ROR mistake for a real one: not zero, but zero when masked. */
  predicate Mistaken(k: Turn, n: nat) { !ThroughCarry(k) && n > 0 && n % 32 == 0 }

  /** The flags such a count writes: those of the operand as it is. */
  predicate Harmless(f: Flags, k: Turn, w: Width, a: word) {
    var (c, o) := RotateOut(k, w, Un(w, a), 0, Un(w, a) % M32);
    Agrees(c, f.cf) && Agrees(o, f.of)
  }

  /**
   A rotate of any count byte gives the architecture's flags exactly when the count
   is not one of 32, 64, ... under ROL and ROR, or CF and OF already are the
   operand's own end bits.
   */
  lemma RotateExact(l: Lazy, f: Flags, k: Turn, w: Width, a: word, n: nat)
    requires Shows(l, f) && n < 256
    ensures Shows(AfterRotate(l, k, w, a, n), RotateFlags(f, k, w, a, n)) <==> (Mistaken(k, n) ==> Harmless(f, k, w, a))
  {
    hide Shows, Agrees, WriteCfOf, RotateRes, Turned, RotateOut;
    var x, y := Un(w, a), RotateCount(k, w, n);
    var res := RotateRes(k, w, x, y, GetCF(l));
    var (c, o) := RotateOut(k, w, x, y, res);
    if ThroughCarry(k) {
      if y > 0 { ThroughShows(l, f, k, w, a, n); } else { IdleShows(l, f, k, w, a, n); }
    } else if n > 0 {
      if n % 32 == 0 {
        WriteShows(l, f, c, o, f.cf, f.of);
        MistakenRes(k, w, a, n, GetCF(l));
        assert f.(cf := f.cf, of := f.of) == f;
      } else {
        AroundShows(l, f, k, w, a, n);
      }
    }
  }

  lemma MistakenRes(k: Turn, w: Width, a: word, n: nat, c: bool)
    requires Mistaken(k, n)
    ensures RotateCount(k, w, n) == 0 && RotateRes(k, w, Un(w, a), 0, c) == Un(w, a) % M32
  {
    match w case W8 => case W16 => case W32 =>
  }

  lemma AroundShows(l: Lazy, f: Flags, k: Turn, w: Width, a: word, n: nat)
    requires Shows(l, f) && !ThroughCarry(k) && n % 32 != 0
    ensures Shows(AfterRotate(l, k, w, a, n), RotateFlags(f, k, w, a, n))
  {
    hide Shows, WriteCfOf, RotateRes, RotateOut, Turned, GetCF, CarryOut, SignMoved, Un;
    var x, y := Un(w, a), RotateCount(k, w, n);
    var res := RotateRes(k, w, x, y, GetCF(l));
    var r := Turned(k, w, a, f.cf == Some(true), n % 32);
    TurnValue(k, w, a, n, GetCF(l));
    SameTurned(k, w, a, GetCF(l), f.cf == Some(true), n % 32);
    ResTop(k, w, x, y, GetCF(l));
    var (c, o) := RotateOut(k, w, x, y, res);
    AroundOut(k, w, x, y, res, r);
    WriteShows(l, f, c, o, Some(CarryOut(k, w, r)), if n % 32 == 1 then Some(SignMoved(k, w, r)) else None);
  }

  lemma AroundOut(k: Turn, w: Width, x: nat, y: nat, res: word, r: int)
    requires !ThroughCarry(k) && y <= Bits(w) && res % Size(w) == r
    ensures RotateOut(k, w, x, y, res).0 == CarryOut(k, w, r)
    ensures Top(res) == (res % Size(w) >= Half(w)) ==> RotateOut(k, w, x, y, res).1 == SignMoved(k, w, r)
  {
    hide Top, TopBit, NextBit, SecondBit;
    ModTwice(w, res);
    TopBitIs(w, res);
    EvenSize(w, res);
    SameSecond(w, res, r);
  }

  lemma SameTurned(k: Turn, w: Width, a: word, c: bool, d: bool, n: nat)
    requires !ThroughCarry(k)
    ensures Turned(k, w, a, c, n) == Turned(k, w, a, d, n)
  {
  }

  /** A result that was really rotated is sign-extended. */
  lemma ResTop(k: Turn, w: Width, x: nat, y: nat, c: bool)
    requires y <= Bits(w)
    ensures y > 0 ==> Top(RotateRes(k, w, x, y, c)) == (RotateRes(k, w, x, y, c) % Size(w) >= Half(w))
  {
    hide Sext, Or, Shl32, Shr32, Top;
    if y > 0 {
      forall v: nat ensures Top(Sext(w, v)) == (Sext(w, v) % Size(w) >= Half(w)) {
        TopIsSign(w, v);
        SextMod(w, v);
      }
    }
  }

  lemma EvenSize(w: Width, v: nat)
    ensures v % Size(w) % 2 == v % 2
  {
    LowByte(w, v);
    var u := v % Size(w);
    DivModUnique(v, 2, (Size(w) / 2) * (v / Size(w)) + u / 2, u % 2) by {
      match w case W8 => case W16 => case W32 =>
    }
  }

  lemma SameSecond(w: Width, v: nat, r: int)
    requires v % Size(w) == r % Size(w)
    ensures SecondBit(w, v) == SecondBit(w, r)
  {
    HalfOfSize(w, v);
    HalfOfSize(w, r);
  }

  lemma HalfOfSize(w: Width, v: int)
    ensures v % Half(w) == v % Size(w) % Half(w)
  {
    var q, u := v / Size(w), v % Size(w);
    match w
    case W8 => DivModUnique(v, 0x80, 2 * q + u / 0x80, u % 0x80);
    case W16 => DivModUnique(v, 0x8000, 2 * q + u / 0x8000, u % 0x8000);
    case W32 => DivModUnique(v, 0x8000_0000, 2 * q + u / 0x8000_0000, u % 0x8000_0000);
  }

  lemma ThroughShows(l: Lazy, f: Flags, k: Turn, w: Width, a: word, n: nat)
    requires Shows(l, f) && ThroughCarry(k) && RotateCount(k, w, n) > 0
    ensures Shows(AfterRotate(l, k, w, a, n), RotateFlags(f, k, w, a, n))
  {
    hide WriteCfOf, RotateRes, Turned, Sext, GetPF, GetAF, GetZF, GetSF, GetOF, GetCF, Shl32, Shr32;
    var x, y := Un(w, a), RotateCount(k, w, n);
    var res := RotateRes(k, w, x, y, GetCF(l));
    var (c, o) := RotateOut(k, w, x, y, res);
    if f.cf.None? {
      WriteShows(l, f, c, o, None, None);
    } else {
      var r := Turned(k, w, a, f.cf.value, n % 32);
      CarryTurnValue(k, w, a, n, f.cf.value);
      TopBitIs(w, res);
      ResTop(k, w, x, y, GetCF(l));
      SameSecond(w, res, r);
      WriteShows(l, f, c, o, Some(CarryOut(k, w, r)), if n % 32 == 1 then Some(SignMoved(k, w, r)) else None);
    }
  }

  /** RCL and RCR by a whole turn change nothing. */
  lemma IdleShows(l: Lazy, f: Flags, k: Turn, w: Width, a: word, n: nat)
    requires Shows(l, f) && ThroughCarry(k) && RotateCount(k, w, n) == 0
    ensures AfterRotate(l, k, w, a, n) == l && Shows(l, RotateFlags(f, k, w, a, n))
  {
    hide GetPF, GetAF, GetZF, GetSF, GetOF, GetCF, Pow2, LeftTimes, RightTimes, Left, Right, Un, RotateRes, RotateOut;
    if n % 32 != 0 && f.cf.Some? {
      var b, x, c := Bits(w), Un(w, a), f.cf.value;
      var v := Bit(c) * Pow2(b) + x;
      SizeIsPow2(w);
      UnInside(w, a);
      Factors(b + 1, 0);
      LeftIs(b + 1, v, n % 32);
      RightIs(b + 1, v, n % 32);
      WholeTurn(b + 1, v);
      assert Rem(n % 32, b + 1) == 0;
      BitTimes(Bit(c), Size(w), 0, 1);
      DivModUnique(v, Size(w), Bit(c), x);
    }
  }

  /** STC, then ROL of 0 by 32: the count is masked to none, and CF reads false. */
  lemma RotateBy32Example(l: Lazy, f: Flags)
    requires Shows(l, f) && f.cf == Some(true)
    ensures Step(f, Rotate(ROL, W32, 0, 32)) == f && !Shows(Exec(l, Rotate(ROL, W32, 0, 32)), f)
  {
    hide Shows;
    RotateExact(l, f, ROL, W32, 0, 32);
  }

  predicate Get(l: Lazy, m: FlagBit) {
    match m
    case CF => GetCF(l)
    case PF => GetPF(l)
    case AF => GetAF(l)
    case ZF => GetZF(l)
    case SF => GetSF(l)
    case OF => GetOF(l)
    case Other(_) => m in l.flags
  }

  /** Storing a flag's own value changes no flag, so refresh_flags may do them one by one. */
  lemma StoreOne(l: Lazy, m: FlagBit, k: FlagBit)
    ensures Get(l.(flags := SetBit(l.flags, Get(l, m), m)), k) == Get(l, k)
  {
    hide ParityTab, Sext;
  }

  /** Refreshing changes no flag, and no other bit of the register. */
  lemma RefreshKeeps(l: Lazy)
    ensures var r := AfterRefresh(l);
            && GetCF(r) == GetCF(l) && GetPF(r) == GetPF(l) && GetAF(r) == GetAF(l)
            && GetZF(r) == GetZF(l) && GetSF(r) == GetSF(l) && GetOF(r) == GetOF(l)
            && r.flags - ALL == l.flags - ALL
  {
    var c, p, a, z, s, o := GetCF(l), GetPF(l), GetAF(l), GetZF(l), GetSF(l), GetOF(l);
    RefreshedBits(l.flags, c, p, a, z, s, o);
    Register(AfterRefresh(l));
  }

  lemma RefreshedBits(x: set<FlagBit>, c: bool, p: bool, a: bool, z: bool, s: bool, o: bool)
    ensures var y := SetBit(SetBit(SetBit(SetBit(SetBit(SetBit(x, c, CF), p, PF), a, AF), z, ZF), s, SF), o, OF);
            && (CF in y) == c && (PF in y) == p && (AF in y) == a && (ZF in y) == z && (SF in y) == s && (OF in y) == o
            && y - ALL == x - ALL
  {
    var y := SetBit(SetBit(SetBit(SetBit(SetBit(SetBit(x, c, CF), p, PF), a, AF), z, ZF), s, SF), o, OF);
    assert forall b :: b !in ALL ==> (b in y <==> b in x);
  }

  lemma Register(l: Lazy)
    requires l.mask == {}
    ensures GetCF(l) == (CF in l.flags) && GetPF(l) == (PF in l.flags) && GetAF(l) == (AF in l.flags)
    ensures GetZF(l) == (ZF in l.flags) && GetSF(l) == (SF in l.flags) && GetOF(l) == (OF in l.flags)
  {
  }

  /** What LAHF loads. */
  function AhByte(x: set<FlagBit>): (ah: nat)
    ensures ah < 256
  {
    (if CF in x then 1 else 0) + 2 + (if PF in x then 4 else 0) + (if AF in x then 16 else 0)
    + (if ZF in x then 64 else 0) + (if SF in x then 128 else 0)
  }

  /** LAHF and SAHF of what it loaded change no flag, whatever was lazy before. */
  lemma LahfThenSahf(l: Lazy)
    ensures var r := AfterSahf(AfterRefresh(l), AhByte(Refreshed(l)));
            && GetCF(r) == GetCF(l) && GetPF(r) == GetPF(l) && GetAF(r) == GetAF(l)
            && GetZF(r) == GetZF(l) && GetSF(r) == GetSF(l) && GetOF(r) == GetOF(l)
  {
    hide GetCF, GetPF, GetAF, GetZF, GetSF, GetOF, AhBits, Refreshed;
    RefreshKeeps(l);
    Register(AfterRefresh(l));
    AhByteBits(Refreshed(l));
    AhMembers(Refreshed(l), AhByte(Refreshed(l)));
    Register(AfterSahf(AfterRefresh(l), AhByte(Refreshed(l))));
  }

  lemma AhByteBits(x: set<FlagBit>)
    ensures var ah := AhByte(x);
            && (ah % 2 == 1 <==> CF in x) && (ah / 4 % 2 == 1 <==> PF in x) && (ah / 16 % 2 == 1 <==> AF in x)
            && (ah / 64 % 2 == 1 <==> ZF in x) && (ah / 128 % 2 == 1 <==> SF in x)
  {
  }

  // ----- One instruction, and any run -----

  /**
   Excluded are a write of CF alone that disagrees with a pending overflow, and a
   rotate by 32, 64, ... that disturbs CF or OF.
   */
  predicate Clear(l: Lazy, f: Flags, i: Instr) {
    && (i.SetCf? && Pending(l) && f.of.Some? ==> i.c == f.of.value)
    && (i.Cmc? ==> !(Pending(l) && f.of.Some?))
    && (i.Sahf? && Pending(l) && f.of.Some? ==> (i.ah % 2 == 1) == f.of.value)
    && (i.Rotate? && Mistaken(i.k, i.n) ==> Harmless(f, i.k, i.w, i.a))
  }

  predicate DeliversValue(i: Instr) {
    !i.SetCf? && !i.Cmc? && !i.Rotate? && !i.Sahf? && !i.Refresh? && ((i.Shl? || i.Shr? || i.Sar?) ==> i.n > 0)
  }

  lemma ExecShows(l: Lazy, f: Flags, i: Instr)
    requires Defined(i) && Shows(l, f) && Clear(l, f, i)
    ensures Shows(Exec(l, i), Step(f, i))
  {
    hide GetCF, GetPF, GetAF, GetZF, GetSF, GetOF, SetBit, AddFlags, SubFlags;
    hide Parity, Zero, Sign, Sext, ParityTab, Pow2,
      AfterAdd, AfterSub, AfterInc, AfterDec, AfterNeg, AfterLogic, AfterImul, AfterMul, AfterSetCf, AfterRotate,
      AfterSahf, AfterRefresh, RotateFlags, Mistaken, Harmless, Pending;
    match i
    case Add(w, a, b) => AddShows(l, w, a, b, false);
    case Adc(w, a, b) => AddShows(l, w, a, b, GetCF(l));
    case Sub(w, a, b) => SubShows(l, w, a, b, false);
    case Sbb(w, a, b) => SubShows(l, w, a, b, GetCF(l));
    case Inc(w, a) => IncShows(l, w, a, f.cf);
    case Dec(w, a) => DecShows(l, w, a, f.cf);
    case Neg(w, a) => NegShows(l, w, a);
    case Logic(w, v) => LogicShows(l, w, v, f);
    case Shl(w, a, n) => if n > 0 { ShlShows(l, w, a, n, f); }
    case Shr(w, a, n) => if n > 0 { ShrShows(l, w, a, n, f); }
    case Sar(w, a, n) => if n > 0 { SarShows(l, w, a, n, f); }
    case MulS(w, a, b) => ImulShows(l, w, a, b, f);
    case MulU(w, a, b) => MulShows(l, w, a, b, f);
    case SetCf(c) => SetCfExact(l, f, c);
    case Cmc => SetCfExact(l, f, !GetCF(l));
    case Rotate(k, w, a, n) => RotateExact(l, f, k, w, a, n);
    case Sahf(ah) => SahfExact(l, f, ah);
    case Refresh => RefreshKeeps(l);
  }

  lemma ExecSane(l: Lazy, i: Instr)
    requires Defined(i) && Sane(l)
    ensures Sane(Exec(l, i))
  {
    hide GetCF, GetPF, GetAF, GetZF, GetSF, GetOF, SetBit, Sext, Pow2, Signed, Un;
  }

  function ExecAll(l: Lazy, run: seq<Instr>): Lazy
    requires forall k :: 0 <= k < |run| ==> Defined(run[k])
  {
    if run == [] then l else Exec(ExecAll(l, run[..|run| - 1]), run[|run| - 1])
  }

  function StepAll(f: Flags, run: seq<Instr>): Flags
    requires forall k :: 0 <= k < |run| ==> Defined(run[k])
  {
    if run == [] then f else Step(StepAll(f, run[..|run| - 1]), run[|run| - 1])
  }

  predicate ClearRun(l: Lazy, f: Flags, run: seq<Instr>)
    requires forall k :: 0 <= k < |run| ==> Defined(run[k])
  {
    forall k :: 0 <= k < |run| ==> Clear(ExecAll(l, run[..k]), StepAll(f, run[..k]), run[k])
  }

  /** Over any clear run every defined flag reads as the architecture says. */
  lemma {:induction false} RunShows(l: Lazy, f: Flags, run: seq<Instr>)
    requires forall k :: 0 <= k < |run| ==> Defined(run[k])
    requires Shows(l, f) && Sane(l) && ClearRun(l, f, run)
    ensures Shows(ExecAll(l, run), StepAll(f, run)) && Sane(ExecAll(l, run))
    decreases |run|
  {
    hide Shows, Sane, Clear, Exec, Step;
    if run != [] {
      var n := |run| - 1;
      var before := run[..n];
      forall k | 0 <= k < n ensures Clear(ExecAll(l, before[..k]), StepAll(f, before[..k]), before[k]) {
        assert before[..k] == run[..k];
      }
      RunShows(l, f, before);
      assert Clear(ExecAll(l, run[..n]), StepAll(f, run[..n]), run[n]);
      ExecShows(ExecAll(l, before), StepAll(f, before), run[n]);
      ExecSane(ExecAll(l, before), run[n]);
    }
  }

  /** The value delivered has the right low bits. */
  lemma ExecValue(l: Lazy, f: Flags, i: Instr)
    requires Defined(i) && DeliversValue(i) && f.cf == Some(GetCF(l))
    ensures Exec(l, i).dst % Size(i.w) == Exact(f, i) % Size(i.w)
  {
    hide GetCF, GetPF, GetAF, GetZF, GetSF, GetOF, Pow2, Sext, Un, Signed, ParityTab, Parity, Zero, Sign, Top;
    if i.MulS? {
      ImulValue(i.w, i.a, i.b);
    } else if i.MulU? {
      MulValue(i.w, i.a, i.b);
    } else {
      ResultFlags(i.w, Exact(f, i));
      match i
      case Add(w, a, b) => SumOfSext(w, a, b, 0);
      case Adc(w, a, b) => SumOfSext(w, a, b, Bit(f.cf.value));
      case Sub(w, a, b) => SumOfSext(w, a, b, 0);
      case Sbb(w, a, b) => SumOfSext(w, a, b, if f.cf.value then -1 else 0);
      case Inc(w, a) => SumOfSextOne(w, a, 1);
      case Dec(w, a) => SumOfSextOne(w, a, -1);
      case Neg(w, a) => SumOfSextOne(w, a, 1);
      case Logic(w, x) =>
      case Shl(w, a, n) => SextOfMod(w, Exact(f, i));
      case Shr(w, a, n) =>
      case Sar(w, a, n) => SignedOfSext(w, a); ModOfMod(w, Exact(f, i));
    }
  }

  lemma ImulValue(w: Width, a: word, b: word)
    ensures var s1, s2 := Sext(w, a), Sext(w, b);
            var p := Signed(w, a) * Signed(w, b);
            && Signed(W32, s1) * Signed(W32, s2) % M32 % Size(w) == p % Size(w)
            && s1 * s2 % M32 % Size(w) == p % Size(w)
  {
    hide Sext, Signed;
    SignedOfSext(w, a);
    SignedOfSext(w, b);
    ModOfMod(w, Signed(w, a) * Signed(w, b));
    ProductOfWords(Sext(w, a), Sext(w, b));
  }

  lemma MulValue(w: Width, a: word, b: word)
    ensures var p := Un(w, a) * Un(w, b);
            && p % M32 % Size(w) == p % Size(w)
            && (w == W8 ==> Sext(W16, p % M32) % Size(w) == p % Size(w))
  {
    hide Sext, Un;
    var p := Un(w, a) * Un(w, b);
    ModOfMod(w, p);
    if w == W8 { ByteOfWord(p % M32); }
  }

  /** MUL keeps the whole product: AX is the low word of dst, DX:AX is dst, EDX:EAX is dst2 and dst. */
  lemma MulProduct(l: Lazy, w: Width, a: word, b: word)
    ensures var r := AfterMul(l, w, a, b);
            var p := a % Size(w) * (b % Size(w));
            && (w == W8 ==> r.dst % 0x1_0000 == p)
            && (w == W16 ==> r.dst == p)
            && (w == W32 ==> 0x1_0000_0000 * r.dst2 + r.dst == p)
  {
    hide Sext;
    var x, y := a % Size(w), b % Size(w);
    MulMono(x, y, Size(w) - 1);
    ProductHalves(w, x * y);
  }

  lemma ProductHalves(w: Width, p: nat)
    requires p <= (Size(w) - 1) * (Size(w) - 1)
    ensures w == W8 ==> Sext(W16, p % M32) % 0x1_0000 == p
    ensures w == W16 ==> p % M32 == p
    ensures w == W32 ==> 0x1_0000_0000 * (p / M32 % M32) + p % M32 == p
  {
    hide Sext;
    match w
    case W8 =>
      SextLowBits(W16, p % M32);
    case W16 =>
    case W32 =>
      assert p / M32 < M32;
  }

  /** IMUL likewise with the signed product. */
  lemma ImulProduct(l: Lazy, w: Width, a: word, b: word)
    ensures var r := AfterImul(l, w, a, b);
            var p := Signed(w, a) * Signed(w, b);
            if w == W32 then 0x1_0000_0000 * Signed(W32, r.dst2) + r.dst == p else Signed(W32, r.dst) == p
  {
    hide Sext, Signed;
    var p := Signed(w, a) * Signed(w, b);
    SignedOfSext(w, a);
    SignedOfSext(w, b);
    SignedBound(w, a);
    SignedBound(w, b);
    ProductBound(Signed(w, a), Signed(w, b), Half(w));
    if w == W32 {
      SignedHigh(p);
    } else {
      ProductOfWords(Sext(w, a), Sext(w, b));
      SignedWhole(p % M32, p);
    }
  }

  lemma SignedWhole(d: word, p: int)
    requires d == p % M32 && -0x4000_0000 <= p <= 0x4000_0000
    ensures Signed(W32, d) == p
  {
    if p < 0 { DivModUnique(p, M32, -1, p + M32); } else { DivModUnique(p, M32, 0, p); }
  }

  lemma SignedHigh(p: int)
    requires -(Half(W32) * Half(W32)) <= p <= Half(W32) * Half(W32)
    ensures 0x1_0000_0000 * Signed(W32, p / M32 % M32) + p % M32 == p
  {
    var q := p / M32;
    assert -0x4000_0000 <= q <= 0x4000_0000;
    SignedWhole(q % M32, q);
  }

  lemma ByteOfWord(p: word)
    ensures Sext(W16, p) % 0x100 == p % 0x100
  {
    SextLowBits(W16, p);
  }

  /** The core: the fields, and the helpers that update them in place. */
  class Core {
    var op: CcOp
    var src1: word
    var src2: word
    var dst: word
    var dst2: word
    var mask: set<FlagBit>
    var flags: set<FlagBit>

    function Value(): Lazy
      reads this
    {
      Lazy(op, src1, src2, dst, dst2, mask, flags)
    }

    /** AOP_helper and ACOP_helper; `c` is the carry that goes in. */
    method Aop(w: Width, a: word, b: word, c: bool, subtract: bool)
      modifies this
      ensures Value() == old(if subtract then AfterSub(Value(), w, a, b, c) else AfterAdd(Value(), w, a, b, c))
    {
      src1 := Sext(w, a);
      src2 := Sext(w, b);
      if subtract {
        dst := Sext(w, (src1 - src2 - Bit(c)) % M32);
        op := if c then SBB else SUB;
      } else {
        dst := Sext(w, (src1 + src2 + Bit(c)) % M32);
        op := if c then ADC else ADD;
      }
      mask := ALL;
    }

    method IncDec(w: Width, a: word, dec: bool)
      modifies this
      ensures Value() == old(if dec then AfterDec(Value(), w, a) else AfterInc(Value(), w, a))
    {
      var cf := GetCF(Value());
      dst := Sext(w, (Sext(w, a) + (if dec then -1 else 1)) % M32);
      op := if dec then DEC(w) else INC(w);
      flags := SetBit(flags, cf, CF);
      mask := NO_CF;
    }

    method NegHelper(w: Width, a: word)
      modifies this
      ensures Value() == old(AfterNeg(Value(), w, a))
    {
      src1 := Sext(w, a);
      dst := Sext(w, (0 - src1) % M32);
      op := NEG(w);
      mask := ALL;
    }

    method Lop(w: Width, v: word)
      modifies this
      ensures Value() == old(AfterLogic(Value(), w, v))
    {
      dst := Sext(w, v);
      op := LOGIC;
      mask := NO_AF;
    }

    method Shift(i: Instr)
      requires (i.Shl? || i.Shr? || i.Sar?) && Defined(i)
      modifies this
      ensures Value() == old(Exec(Value(), i))
    {
      var x, y := Un(i.w, i.a), i.n;
      if y == 0 {
        return;
      }
      if i.Shl? {
        dst := Sext(i.w, x * Pow2(y) % M32);
        dst2 := ShlOut(i.w, x, y);
        op := SHL;
      } else if i.Shr? {
        src1 := Sext(i.w, x);
        dst := Sext(i.w, x / Pow2(y));
        dst2 := x / Pow2(y - 1) % 2;
        op := SHR;
      } else {
        var s := Signed(W32, Sext(i.w, i.a));
        dst := s / Pow2(y) % M32;
        dst2 := s / Pow2(y - 1) % 2;
        op := SAR;
      }
      mask := NO_AF;
    }

    method Multiply(i: Instr)
      requires i.MulS? || i.MulU?
      modifies this
      ensures Value() == old(Exec(Value(), i))
    {
      hide Sext, Signed;
      if i.MulS? {
        src1 := Sext(i.w, i.a);
        src2 := Sext(i.w, i.b);
        if i.w == W32 {
          var res := Signed(W32, src1) * Signed(W32, src2);
          dst := res % M32;
          dst2 := res / M32 % M32;
        } else {
          dst := src1 * src2 % M32;
        }
        op := IMUL(i.w);
      } else {
        src1 := Un(i.w, i.a);
        src2 := Un(i.w, i.b);
        var res := src1 * src2;
        dst := if i.w == W8 then Sext(W16, res % M32) else res % M32;
        if i.w == W32 { dst2 := res / M32 % M32; }
        op := MUL(i.w);
      }
      mask := ALL;
    }

    method SetCarry(c: bool)
      modifies this
      ensures Value() == old(AfterSetCf(Value(), c))
    {
      mask := mask - {CF};
      flags := SetBit(flags, c, CF);
    }

    /** The four rotate helpers; `res` is what they store in the operand. */
    method RotateHelper(k: Turn, w: Width, a: word, n: nat) returns (res: word)
      modifies this
      ensures Value() == old(AfterRotate(Value(), k, w, a, n))
      ensures res == RotateRes(k, w, Un(w, a), RotateCount(k, w, n), old(GetCF(Value())))
    {
      hide Sext, Shl32, Shr32, RotateRes;
      var x := Un(w, a);
      var y := RotateCount(k, w, n);
      res := RotateRes(k, w, x, y, GetCF(Value()));
      if (if ThroughCarry(k) then y else n) != 0 {
        var (c, o) := RotateOut(k, w, x, y, res);
        flags := SetBit(flags, c, CF);
        flags := SetBit(flags, o, OF);
        mask := mask - {CF, OF};
      }
    }

    method SetFromAh(ah: nat)
      modifies this
      ensures Value() == old(AfterSahf(Value(), ah))
    {
      mask := mask * {OF};
      flags := flags - LOW + AhBits(ah);
    }

    /** refresh_flags: every getter reads the flags written so far. */
    method RefreshFlags()
      modifies this
      ensures Value() == old(AfterRefresh(Value()))
    {
      ghost var l := Value();
      StoreFlag(CF, l);
      StoreFlag(PF, l);
      StoreFlag(AF, l);
      StoreFlag(ZF, l);
      StoreFlag(SF, l);
      StoreFlag(OF, l);
      mask := {};
    }

    /** SET_BIT(cpu->flags, get_xF(cpu), xF). */
    method StoreFlag(m: FlagBit, ghost l: Lazy)
      requires forall k :: Get(Value(), k) == Get(l, k)
      modifies this`flags
      ensures flags == SetBit(old(flags), Get(l, m), m)
      ensures forall k :: Get(Value(), k) == Get(l, k)
    {
      hide Get;
      ghost var v := Value();
      flags := SetBit(flags, Get(Value(), m), m);
      forall k ensures Get(Value(), k) == Get(v, k) {
        StoreOne(v, m, k);
      }
    }

    method Execute(i: Instr)
      requires Defined(i)
      modifies this
      ensures Value() == old(Exec(Value(), i))
    {
      var cf := GetCF(Value());
      match i
      case Add(w, a, b) => Aop(w, a, b, false, false);
      case Adc(w, a, b) => Aop(w, a, b, cf, false);
      case Sub(w, a, b) => Aop(w, a, b, false, true);
      case Sbb(w, a, b) => Aop(w, a, b, cf, true);
      case Inc(w, a) => IncDec(w, a, false);
      case Dec(w, a) => IncDec(w, a, true);
      case Neg(w, a) => NegHelper(w, a);
      case Logic(w, v) => Lop(w, v);
      case Shl(_, _, _) => Shift(i);
      case Shr(_, _, _) => Shift(i);
      case Sar(_, _, _) => Shift(i);
      case MulS(_, _, _) => Multiply(i);
      case MulU(_, _, _) => Multiply(i);
      case SetCf(c) => SetCarry(c);
      case Cmc => SetCarry(!cf);
      case Rotate(k, w, a, n) => { var res := RotateHelper(k, w, a, n); }
      case Sahf(ah) => SetFromAh(ah);
      case Refresh => RefreshFlags();
    }

    /** A whole run, with the flags read lazily at the end. */
    method Run(run: seq<Instr>, ghost f: Flags)
      requires forall k :: 0 <= k < |run| ==> Defined(run[k])
      requires Shows(Value(), f) && Sane(Value()) && ClearRun(Value(), f, run)
      modifies this
      ensures Shows(Value(), StepAll(f, run)) && Sane(Value())
    {
      hide Shows, Sane, Exec, Step, Clear;
      ghost var l := Value();
      for i := 0 to |run|
        invariant Value() == ExecAll(l, run[..i])
      {
        Execute(run[i]);
        assert run[..i + 1][..i] == run[..i];
      }
      assert run[..|run|] == run;
      RunShows(l, f, run);
    }
  }
}
