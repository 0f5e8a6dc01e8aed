/**
 The status flags as the architecture defines them (Intel 80386 Programmer's
 Reference Manual, section 2.3.4), on unbounded integers: carry is the exact
 sum not fitting, overflow the exact signed sum not fitting.
 */
module ArchFlags {
  import opened Arith
  import opened Rotates
  import opened Wrappers

  datatype Width = W8 | W16 | W32

  const M32: nat := 0x1_0000_0000

  type word = x: int | 0 <= x < M32

  function Size(w: Width): (n: nat) {
    match w case W8 => 0x100 case W16 => 0x1_0000 case W32 => 0x1_0000_0000
  }

  function Half(w: Width): (n: nat) {
    match w case W8 => 0x80 case W16 => 0x8000 case W32 => 0x8000_0000
  }

  /** The `w`-bit operand as an unsigned and as a signed number. */
  function Un(w: Width, a: word): (v: nat) { a % Size(w) }

  function Signed(w: Width, a: word): (s: int) {
    if Un(w, a) >= Half(w) then Un(w, a) - Size(w) else Un(w, a)
  }

  /** A status flag the architecture leaves undefined is None. */
  datatype Flags = Flags(cf: Option<bool>, pf: Option<bool>, af: Option<bool>, zf: Option<bool>, sf: Option<bool>,
                         of: Option<bool>)

  /** How many bits of a nibble, of a byte are set. */
  function Ones4(n: nat): nat { n % 2 + n / 2 % 2 + n / 4 % 2 + n / 8 % 2 }
  function Ones8(v: nat): nat { Ones4(v % 16) + Ones4(v / 16) }

  function Parity(v: int): Option<bool> { Some(Ones8(v % 256) % 2 == 0) }
  function Zero(w: Width, v: int): Option<bool> { Some(v % Size(w) == 0) }
  function Sign(w: Width, v: int): Option<bool> { Some(v % Size(w) >= Half(w)) }

  function Bit(b: bool): (v: nat) { if b then 1 else 0 }

  predicate Fits(w: Width, s: int) { -(Half(w) as int) <= s < Half(w) }

  function AddFlags(w: Width, a: word, b: word, carry: bool): (f: Flags) {
    var v := Un(w, a) + Un(w, b) + Bit(carry);
    Flags(Some(v >= Size(w)), Parity(v), Some(a % 16 + b % 16 + Bit(carry) >= 16),
          Zero(w, v), Sign(w, v), Some(!Fits(w, Signed(w, a) + Signed(w, b) + Bit(carry))))
  }

  function SubFlags(w: Width, a: word, b: word, borrow: bool): (f: Flags) {
    var v := Un(w, a) - Un(w, b) - Bit(borrow);
    Flags(Some(v < 0), Parity(v), Some(a % 16 < b % 16 + Bit(borrow)),
          Zero(w, v), Sign(w, v), Some(!Fits(w, Signed(w, a) - Signed(w, b) - Bit(borrow))))
  }

  function Bits(w: Width): (n: nat) { match w case W8 => 8 case W16 => 16 case W32 => 32 }

  /** After an addition of an undefined carry nothing is defined. */
  function Unknown(): Flags { Flags(None, None, None, None, None, None) }

  // ----- Rotates (section 17.2.2.11): one bit at a time, RCL and RCR with CF above the operand -----

  datatype Turn = ROL | ROR | RCL | RCR

  predicate ThroughCarry(k: Turn) { k.RCL? || k.RCR? }

  /** The rotated operand, with the carry on top where the rotate goes through it. */
  function Turned(k: Turn, w: Width, a: word, c: bool, n: nat): (r: int) {
    match k
    case ROL => LeftTimes(Bits(w), Un(w, a), n)
    case ROR => RightTimes(Bits(w), Un(w, a), n)
    case RCL => LeftTimes(Bits(w) + 1, Bit(c) * Pow2(Bits(w)) + Un(w, a), n)
    case RCR => RightTimes(Bits(w) + 1, Bit(c) * Pow2(Bits(w)) + Un(w, a), n)
  }

  /** CF: the bit last moved around the end. */
  predicate CarryOut(k: Turn, w: Width, r: int) {
    match k
    case ROL => r % 2 == 1
    case ROR => r % Size(w) >= Half(w)
    case _ => r / Size(w) == 1
  }

  predicate SecondBit(w: Width, r: int) { r % Half(w) >= Half(w) / 2 }

  /** OF, defined for a count of one: the sign changed. */
  predicate SignMoved(k: Turn, w: Width, r: int) {
    (r % Size(w) >= Half(w)) != if k.ROL? || k.RCL? then CarryOut(k, w, r) else SecondBit(w, r)
  }

  function RotateFlags(f: Flags, k: Turn, w: Width, a: word, n: nat): (r: Flags) {
    var m := n % 32;
    if m == 0 then f
    else if ThroughCarry(k) && f.cf.None? then f.(cf := None, of := None)
    else
      var r := Turned(k, w, a, f.cf == Some(true), m);
      f.(cf := Some(CarryOut(k, w, r)), of := if m == 1 then Some(SignMoved(k, w, r)) else None)
  }

  /** One instruction that writes status flags, with the operand values it meets. */
  datatype Instr =
    | Add(w: Width, a: word, b: word)
    | Adc(w: Width, a: word, b: word)
    | Sub(w: Width, a: word, b: word)      // SUB and CMP
    | Sbb(w: Width, a: word, b: word)
    | Inc(w: Width, a: word)
    | Dec(w: Width, a: word)
    | Neg(w: Width, a: word)
    | Logic(w: Width, v: word)             // AND, OR, XOR, TEST with bitwise result v
    | Shl(w: Width, a: word, n: nat)
    | Shr(w: Width, a: word, n: nat)
    | Sar(w: Width, a: word, n: nat)
    | MulS(w: Width, a: word, b: word)     // IMUL
    | MulU(w: Width, a: word, b: word)     // MUL
    | SetCf(c: bool)                       // CLC, STC, BT
    | Cmc
    | Rotate(k: Turn, w: Width, a: word, n: nat)
    | Sahf(ah: nat)
    | Refresh                              // LAHF, PUSHF

  /** Shift counts have been masked to five bits, rotate counts are the byte as it stands. */
  predicate Defined(i: Instr) {
    && (i.Shl? || i.Shr? || i.Sar? ==> i.n < 32)
    && (i.Rotate? ==> i.n < 256)
    && (i.Sahf? ==> i.ah < 256)
  }

  function Product(i: Instr): (p: int)
    requires i.MulS? || i.MulU?
  {
    if i.MulS? then Signed(i.w, i.a) * Signed(i.w, i.b) else Un(i.w, i.a) * Un(i.w, i.b)
  }

  /** The flags in the low byte of the register. */
  function AhFlags(ah: nat): (f: Flags) {
    Flags(Some(ah % 2 == 1), Some(ah / 4 % 2 == 1), Some(ah / 16 % 2 == 1), Some(ah / 64 % 2 == 1),
          Some(ah / 128 % 2 == 1), None)
  }

  /** The flags after one instruction. */
  function Step(f: Flags, i: Instr): (r: Flags)
    requires Defined(i)
  {
    match i
    case Add(w, a, b) => AddFlags(w, a, b, false)
    case Adc(w, a, b) => if f.cf.None? then Unknown() else AddFlags(w, a, b, f.cf.value)
    case Sub(w, a, b) => SubFlags(w, a, b, false)
    case Sbb(w, a, b) => if f.cf.None? then Unknown() else SubFlags(w, a, b, f.cf.value)
    case Inc(w, a) => AddFlags(w, a, 1, false).(cf := f.cf)
    case Dec(w, a) => SubFlags(w, a, 1, false).(cf := f.cf)
    case Neg(w, a) => SubFlags(w, 0, a, false)
    case Logic(w, v) => Flags(Some(false), Parity(v), None, Zero(w, v), Sign(w, v), Some(false))
    case Shl(w, a, n) =>
      var v := Un(w, a) * Pow2(n);
      var cf := v / Size(w) % 2 == 1;
      if n == 0 then f
      else Flags(if n <= Bits(w) then Some(cf) else None, Parity(v), None, Zero(w, v), Sign(w, v),
                 if n == 1 then Some((v % Size(w) >= Half(w)) != cf) else None)
    case Shr(w, a, n) =>
      var v := Un(w, a) / Pow2(n);
      if n == 0 then f
      else Flags(if n <= Bits(w) then Some(Un(w, a) / Pow2(n - 1) % 2 == 1) else None,
                 Parity(v), None, Zero(w, v), Sign(w, v),
                 if n == 1 then Some(Un(w, a) >= Half(w)) else None)
    case Sar(w, a, n) =>
      var v := Signed(w, a) / Pow2(n);
      if n == 0 then f
      else Flags(Some(Signed(w, a) / Pow2(n - 1) % 2 == 1), Parity(v), None, Zero(w, v), Sign(w, v),
                 if n == 1 then Some(false) else None)
    case MulS(w, _, _) => Flags(Some(!Fits(w, Product(i))), None, None, None, None, Some(!Fits(w, Product(i))))
    case MulU(w, _, _) => Flags(Some(Product(i) >= Size(w)), None, None, None, None, Some(Product(i) >= Size(w)))
    case SetCf(c) => f.(cf := Some(c))
    case Cmc => f.(cf := if f.cf.None? then None else Some(!f.cf.value))
    case Rotate(k, w, a, n) => RotateFlags(f, k, w, a, n)
    case Sahf(ah) => AhFlags(ah).(of := f.of)
    case Refresh => f
  }

  /** The exact value whose low `w` bits the instruction delivers (0 where it delivers none). */
  function Exact(f: Flags, i: Instr): (v: int)
    requires Defined(i)
  {
    match i
    case Add(w, a, b) => Un(w, a) + Un(w, b)
    case Adc(w, a, b) => Un(w, a) + Un(w, b) + Bit(f.cf == Some(true))
    case Sub(w, a, b) => Un(w, a) - Un(w, b)
    case Sbb(w, a, b) => Un(w, a) - Un(w, b) - Bit(f.cf == Some(true))
    case Inc(w, a) => Un(w, a) + 1
    case Dec(w, a) => Un(w, a) - 1
    case Neg(w, a) => 0 - Un(w, a)
    case Logic(w, v) => v
    case Shl(w, a, n) => Un(w, a) * Pow2(n)
    case Shr(w, a, n) => Un(w, a) / Pow2(n)
    case Sar(w, a, n) => Signed(w, a) / Pow2(n)
    case MulS(w, _, _) => Product(i)
    case MulU(w, _, _) => Product(i)
    case _ => 0
  }
}
