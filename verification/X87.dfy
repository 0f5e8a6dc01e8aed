/**
 The x87 register file.  A register loaded as an 80-bit image is converted only
 when it is read, and one that was computed only when it is stored; FRSTOR and
 FNSAVE move all eight as images.  It stands for eight plain registers, each
 with the image it would store and the value it would deliver.
 */
module X87 {
  import opened Arith
  import opened GuestMemory
  import opened Float80

  type f64 = v: nat | v < P64
  type f80 = x: F80 | ValidF80(x) witness F80(0, 0, 0)

  lemma LoadedIsF64(x: F80)
    requires ValidF80(x)
    ensures Fromf80(x) < P64
  {
    hide Or, Shr;
    if Exp80(x) == 0x7fff {
      var (e, f) := Narrow(Exp80(x), Mant80(x));
      OrFields(e, f);
      Fields64(Sign80(x), e, f % P52);
    } else {
      LoadedFinite(x);
    }
  }

  lemma LoadedFinite(x: F80)
    requires ValidF80(x) && Exp80(x) < 0x7fff
    ensures Fromf80(x) < P64
  {
    hide Or, Pow2, Shr, Low;
    var exp, mant := Exp80(x), Mant80(x);
    var (e, f) := Narrow(exp, mant);
    if BIAS_SHIFT - 52 < exp <= BIAS_SHIFT {
      ShrLow(mant, 12 + BIAS_SHIFT - exp);
      ShiftedFits(f, 12 + BIAS_SHIFT - exp, mant);
    }
    OrFields(e, f);
    Fields64(Sign80(x), e, f);
  }

  function Load80(x: f80): (v: f64) {
    LoadedIsF64(x);
    Fromf80(x)
  }

  function Store80(v: f64): (x: f80) {
    StoreThenLoad(v);
    Tof80(v)
  }

  lemma StoreLoad(v: f64)
    ensures Load80(Store80(v)) == Survives(v)
  {
    StoreThenLoad(v);
  }

  /** ---- Plain registers ---- */

  datatype Reg = Reg(image: f80, value: f64)

  datatype Plain = Plain(regs: seq<Reg>, top: nat)

  predicate ValidPlain(p: Plain) { |p.regs| == 8 && p.top < 8 }

  datatype Op = Get(i: nat) | Set(i: nat, v: f64) | Push(v: f64) | Pop

  function SetReg(p: Plain, i: nat, v: f64): (q: Plain)
    requires ValidPlain(p)
    ensures ValidPlain(q) && q.top == p.top
  {
    p.(regs := p.regs[(p.top + i) % 8 := Reg(Store80(v), v)])
  }

  /** What an operation does to plain registers: reading does nothing. */
  function Apply(p: Plain, op: Op): (q: Plain)
    requires ValidPlain(p)
    ensures ValidPlain(q)
  {
    match op
    case Get(_) => p
    case Set(i, v) => SetReg(p, i, v)
    case Push(v) => SetReg(p.(top := (p.top + 7) % 8), 0, v)
    case Pop => p.(top := (p.top + 1) % 8)
  }

  function ApplyAll(p: Plain, ops: seq<Op>): (q: Plain)
    requires ValidPlain(p)
    ensures ValidPlain(q)
    decreases |ops|
  {
    if ops == [] then p else ApplyAll(Apply(p, ops[0]), ops[1..])
  }

  /** The values a run reads. */
  function Reads(p: Plain, ops: seq<Op>): (vs: seq<f64>)
    requires ValidPlain(p)
    decreases |ops|
  {
    if ops == [] then [] else
      (if ops[0].Get? then [p.regs[(p.top + ops[0].i) % 8].value] else []) + Reads(Apply(p, ops[0]), ops[1..])
  }

  /** The physical registers a run writes. */
  function Written(top: nat, ops: seq<Op>): (js: set<nat>)
    decreases |ops|
  {
    if ops == [] then {} else
      match ops[0]
      case Get(_) => Written(top, ops[1..])
      case Set(i, _) => {(top + i) % 8} + Written(top, ops[1..])
      case Push(_) => {(top + 7) % 8} + Written((top + 7) % 8, ops[1..])
      case Pop => Written((top + 1) % 8, ops[1..])
  }

  lemma {:induction false} UnwrittenKept(p: Plain, ops: seq<Op>, j: nat)
    requires ValidPlain(p) && j < 8 && j !in Written(p.top, ops)
    ensures ApplyAll(p, ops).regs[j] == p.regs[j]
    decreases |ops|
  {
    hide Store80;
    if ops != [] { UnwrittenKept(Apply(p, ops[0]), ops[1..], j); }
  }

  /** What the guest finds at ST(i). */
  function St(p: Plain, i: nat): (r: Reg)
    requires ValidPlain(p) && i < 8
  {
    p.regs[(p.top + i) % 8]
  }

  lemma WrapsAt8(x: nat)
    requires x < 16
    ensures x % 8 == if x < 8 then x else x - 8
  {
  }

  /** A push puts its value on top and moves the others one down, and a pop undoes it but for the register it took. */
  lemma PushOrder(p: Plain, v: f64, i: nat)
    requires ValidPlain(p) && i < 7
    ensures var q := Apply(p, Push(v));
            && St(q, 0) == Reg(Store80(v), v) && St(q, i + 1) == St(p, i)
            && Apply(q, Pop).top == p.top && St(Apply(q, Pop), i) == St(p, i)
  {
    hide Store80;
    var q := Apply(p, Push(v));
    WrapsAt8(p.top + 7);
    WrapsAt8(q.top + 1);
    WrapsAt8(q.top);
    WrapsAt8(p.top + i);
    WrapsAt8(q.top + (i + 1));
    SetLands(p.(top := q.top), 0, v, i + 1);
    SetLands(p.(top := q.top), 0, v, 0);
  }

  lemma SetLands(p: Plain, i: nat, v: f64, k: nat)
    requires ValidPlain(p) && i < 8 && k < 8
    ensures St(SetReg(p, i, v), k) == if k == i then Reg(Store80(v), v) else St(p, k)
  {
    hide Store80;
    WrapsAt8(p.top + i);
    WrapsAt8(p.top + k);
  }

  /** A pop moves the registers one up, and a write reaches the named one alone. */
  lemma PopOrder(p: Plain, v: f64, i: nat, k: nat)
    requires ValidPlain(p) && i < 8 && k < 8
    ensures i < 7 ==> St(Apply(p, Pop), i) == St(p, i + 1)
    ensures St(Apply(p, Set(i, v)), k) == if k == i then Reg(Store80(v), v) else St(p, k)
  {
    hide Store80;
    SetLands(p, i, v, k);
    WrapsAt8(p.top + 1);
    WrapsAt8(p.top + (i + 1));
    WrapsAt8((p.top + 1) % 8 + i);
  }

  /** ---- Images in memory ---- */

  function Bytes80(x: f80): (bs: seq<byte>)
    ensures |bs| == 10
  {
    ToBytes(x.mant0, 4) + ToBytes(x.mant1, 4) + ToBytes(x.high, 2)
  }

  function ImageAt(m: seq<byte>, a: nat): (x: F80)
    requires a + 10 <= |m|
  {
    F80(Load(m, a, 4), Load(m, a + 4, 4), Load(m, a + 8, 2))
  }

  lemma {:induction false} FromBytesBound(bs: seq<byte>)
    ensures FromBytes(bs) < Pow256(|bs|)
  {
    if bs != [] { FromBytesBound(bs[1..]); }
  }

  lemma Pow256s()
    ensures Pow256(2) == 65536 && Pow256(4) == P32
  {
    assert Pow256(0) == 1 && Pow256(1) == 256;
  }

  lemma ImageValid(m: seq<byte>, a: nat)
    requires a + 10 <= |m|
    ensures ValidF80(ImageAt(m, a))
  {
    Pow256s();
    FromBytesBound(m[a..a + 4]);
    FromBytesBound(m[a + 4..a + 8]);
    FromBytesBound(m[a + 8..a + 10]);
  }

  /** Ten bytes and the image they hold determine each other. */
  lemma ImageBytes(m: seq<byte>, a: nat, x: f80)
    requires a + 10 <= |m|
    ensures ImageAt(m, a) == x <==> m[a..a + 10] == Bytes80(x)
  {
    var bs := m[a..a + 10];
    Pow256s();
    hide FromBytes, ToBytes, Pow256;
    SliceOfSlice(m, a, 10, 0, 4);
    SliceOfSlice(m, a, 10, 4, 8);
    SliceOfSlice(m, a, 10, 8, 10);
    assert bs == bs[..4] + bs[4..8] + bs[8..];
    ToFromBytes(m[a..a + 4]);
    ToFromBytes(m[a + 4..a + 8]);
    ToFromBytes(m[a + 8..a + 10]);
    FromToBytes(x.mant0, 4);
    FromToBytes(x.mant1, 4);
    FromToBytes(x.high, 2);
    if bs == Bytes80(x) {
      assert Bytes80(x)[..4] == ToBytes(x.mant0, 4) && Bytes80(x)[4..8] == ToBytes(x.mant1, 4);
      assert Bytes80(x)[8..] == ToBytes(x.high, 2);
    }
  }

  lemma LoadWord(m: seq<byte>, a: nat)
    requires a + 2 <= |m|
    ensures Load(m, a, 2) < 65536
  {
    Pow256s();
    FromBytesBound(m[a..a + 2]);
  }

  /** The low half of a stored word or double word. */
  lemma WordStored(m: seq<byte>, a: nat, w: nat, v: nat)
    requires w == 2 || w == 4
    requires a + w <= |m| && v < 65536 && m[a..a + w] == ToBytes(v, w)
    ensures Load(m, a, 2) == v
  {
    Pow256s();
    FromToBytes(v, 2);
    ToBytes2(v);
    if w == 4 { ToBytes4(v); }
    SliceOfSlice(m, a, w, 0, 2);
    assert ToBytes(v, w)[..2] == ToBytes(v, 2);
  }

  /** The 10-byte slot of register `j` behind a header of 14 or 28 bytes. */
  function SlotAt(addr: nat, wide: bool, j: nat): (a: nat) {
    addr + (if wide then 28 else 14) + 10 * j
  }

  /** The images follow a header of seven words or double words, ten bytes each, significand first. */
  lemma SlotLayout(m: seq<byte>, addr: nat, wide: bool, j: nat)
    requires j < 8 && addr + (if wide then 108 else 94) <= |m|
    ensures var x, a := ImageAt(m, SlotAt(addr, wide, j)), addr + 7 * (if wide then 4 else 2) + 10 * j;
            && x.mant0 + P32 * x.mant1 == Load(m, a, 4) + 0x1_0000_0000 * Load(m, a + 4, 4)
            && x.high == Load(m, a + 8, 2) && x.mant0 == Load(m, a, 4)
  {
    hide Load;
  }

  ghost predicate Untouched(was: seq<byte>, now: seq<byte>, from: nat, to: nat) {
    |was| == |now| && forall i :: 0 <= i < |was| && !(from <= i < to) ==> was[i] == now[i]
  }

  /** The first `n` images are in memory. */
  ghost predicate Saved(m: seq<byte>, addr: nat, wide: bool, images: seq<f80>, n: nat)
    requires n <= |images| && SlotAt(addr, wide, n) <= |m|
  {
    forall k :: 0 <= k < n ==> m[SlotAt(addr, wide, k)..SlotAt(addr, wide, k) + 10] == Bytes80(images[k])
  }

  lemma NothingSaved(m: seq<byte>, addr: nat, wide: bool, images: seq<f80>)
    requires SlotAt(addr, wide, 0) <= |m|
    ensures Saved(m, addr, wide, images, 0) && Untouched(m, m, SlotAt(addr, wide, 0), SlotAt(addr, wide, 0))
  {
  }

  lemma SavedStep(was: seq<byte>, now: seq<byte>, addr: nat, wide: bool, images: seq<f80>, n: nat)
    requires n < |images| && SlotAt(addr, wide, n + 1) <= |was|
    requires Saved(was, addr, wide, images, n) && Untouched(was, now, SlotAt(addr, wide, n), SlotAt(addr, wide, n + 1))
    requires now[SlotAt(addr, wide, n)..SlotAt(addr, wide, n) + 10] == Bytes80(images[n])
    ensures Saved(now, addr, wide, images, n + 1)
  {
    hide Bytes80;
    forall k | 0 <= k < n + 1
      ensures now[SlotAt(addr, wide, k)..SlotAt(addr, wide, k) + 10] == Bytes80(images[k])
    {
      if k < n {
        var i := SlotAt(addr, wide, k);
        assert now[i..i + 10] == was[i..i + 10];
      }
    }
  }

  lemma UntouchedJoin(m0: seq<byte>, m1: seq<byte>, m2: seq<byte>, from: nat, mid: nat, to: nat)
    requires Untouched(m0, m1, from, mid) && Untouched(m1, m2, mid, to) && from <= mid <= to
    ensures Untouched(m0, m2, from, to)
  {
  }

  lemma SavedImages(m: seq<byte>, addr: nat, wide: bool, images: seq<f80>)
    requires |images| == 8 && SlotAt(addr, wide, 8) <= |m| && Saved(m, addr, wide, images, 8)
    ensures forall k :: 0 <= k < 8 ==> ImageAt(m, SlotAt(addr, wide, k)) == images[k]
  {
    hide ImageAt, Bytes80;
    forall k | 0 <= k < 8 ensures ImageAt(m, SlotAt(addr, wide, k)) == images[k] {
      ImageBytes(m, SlotAt(addr, wide, k), images[k]);
    }
  }

  /** Control, status and tag word, each `w` bytes wide; the tag word is always 0. */
  ghost predicate HeaderAt(m: seq<byte>, a: nat, w: nat, cw: nat, sw: nat)
    requires a + 3 * w <= |m|
  {
    m[a..a + w] == ToBytes(cw, w) && m[a + w..a + 2 * w] == ToBytes(sw, w) && m[a + 2 * w..a + 3 * w] == ToBytes(0, w)
  }

  lemma HeaderStays(was: seq<byte>, now: seq<byte>, a: nat, w: nat, cw: nat, sw: nat, from: nat, to: nat)
    requires Untouched(was, now, from, to) && a + 3 * w <= from <= |was| && HeaderAt(was, a, w, cw, sw)
    ensures HeaderAt(now, a, w, cw, sw)
  {
    assert now[a..a + w] == was[a..a + w] && now[a + w..a + 2 * w] == was[a + w..a + 2 * w];
    assert now[a + 2 * w..a + 3 * w] == was[a + 2 * w..a + 3 * w];
  }

  /** Ten bytes stored between earlier images and the rest. */
  method StoreImage(mem: array<byte>, a: nat, x: f80)
    requires a + 10 <= mem.Length
    modifies mem
    ensures mem[a..a + 10] == Bytes80(x) && Untouched(old(mem[..]), mem[..], a, a + 10)
  {
    hide Bytes80;
    WriteBytes(mem, a, Bytes80(x));
  }

  lemma HeaderKept(was: seq<byte>, now: seq<byte>, a: nat, from: nat, to: nat)
    requires Untouched(was, now, from, to) && a + 2 <= from <= |was|
    ensures Load(now, a, 2) == Load(was, a, 2)
  {
    assert now[a..a + 2] == was[a..a + 2];
  }

  /** ---- The unit ---- */

  class Fpu {
    var cw: nat
    var sw: nat
    var top: nat
    var st: seq<f64>
    var rawst: seq<f80>
    var rawtagr: set<nat>         // converted from its image by a read
    var rawtagw: set<nat>         // computed, and not yet converted to an image

    constructor ()
      ensures Valid() && cw == 0x40 && top == 0 && rawtagr == rawtagw == {}
    {
      cw, sw, top := 0x40, 0, 0;
      st, rawst := seq(8, _ => 0), seq(8, _ => F80(0, 0, 0));
      rawtagr, rawtagw := {}, {};
    }

    /** The image register `j` would be stored as. */
    ghost function Image(j: nat): (x: f80)
      requires j < 8 && |st| == |rawst| == 8
      reads `st, `rawst, `rawtagw
    {
      if j in rawtagw then Store80(st[j]) else rawst[j]
    }

    /** The value a read of register `j` would give. */
    ghost function Value(j: nat): (v: f64)
      requires j < 8 && |st| == |rawst| == 8
      reads `st, `rawst, `rawtagr, `rawtagw
    {
      if j in rawtagw || j in rawtagr then st[j] else Load80(rawst[j])
    }

    /** Image and value of a register belong together. */
    ghost predicate Paired(j: nat)
      requires j < 8 && |st| == |rawst| == 8
      reads `st, `rawst, `rawtagr, `rawtagw
    {
      Value(j) == Load80(Image(j)) || Image(j) == Store80(Value(j))
    }

    ghost predicate Valid()
      reads this
    {
      && |st| == |rawst| == 8 && top < 8 && cw < 65536 && sw < 65536
      && forall j :: 0 <= j < 8 ==> Paired(j)
    }

    ghost function Images(): (xs: seq<f80>)
      requires |st| == |rawst| == 8
      reads this
      ensures |xs| == 8 && forall j :: 0 <= j < 8 ==> xs[j] == Image(j)
    {
      seq(8, j requires 0 <= j < 8 reads this requires |st| == |rawst| == 8 => Image(j))
    }

    ghost function View(): (p: Plain)
      requires Valid()
      reads this
      ensures ValidPlain(p)
    {
      Plain(seq(8, j requires 0 <= j < 8 reads this requires |st| == |rawst| == 8 => Reg(Image(j), Value(j))), top)
    }

    /** getsw: the top of stack sits in bits 11 to 13. */
    function GetSw(): (w: nat)
      reads this
    {
      sw / 16384 * 16384 + top * 2048 + sw % 2048
    }

    method SetSw(w: nat)
      requires w < 65536
      modifies `sw, `top
      ensures GetSw() == w && top < 8 && sw < 65536
    {
      sw, top := w, w / 2048 % 8;
    }

    twostate lemma SameRegs()
      requires old(Valid()) && top < 8 && cw < 65536 && sw < 65536 && |st| == |rawst| == 8
      requires forall j :: 0 <= j < 8 ==> Image(j) == old(Image(j)) && Value(j) == old(Value(j))
      ensures Valid() && View() == old(View()).(top := top)
    {
      hide Load80, Store80;
      forall j | 0 <= j < 8 ensures Paired(j) { assert old(Paired(j)); }
      assert View().regs == old(View()).regs;
    }

    /** fpget. */
    method Fpget(i: nat) returns (v: f64)
      requires Valid()
      modifies `st, `rawtagr
      ensures Valid() && View() == old(View()) && v == View().regs[(top + i) % 8].value
    {
      hide Load80, Store80;
      var idx := (top + i) % 8;
      if idx !in rawtagr && idx !in rawtagw {
        st := st[idx := Load80(rawst[idx])];
        rawtagr := rawtagr + {idx};
        SameRegs();
      }
      v := st[idx];
    }

    /** fpset. */
    method Fpset(i: nat, v: f64)
      requires Valid()
      modifies `st, `rawtagw
      ensures Valid() && View() == SetReg(old(View()), i, v)
    {
      hide Load80, Store80;
      var idx := (top + i) % 8;
      st := st[idx := v];
      rawtagw := rawtagw + {idx};
      assert Paired(idx);
      assert forall j :: 0 <= j < 8 && j != idx ==>
               Image(j) == old(Image(j)) && Value(j) == old(Value(j)) && old(Paired(j));
    }

    /** One operation on the stack. */
    method Execute(op: Op) returns (v: f64)
      requires Valid()
      modifies `st, `rawtagr, `rawtagw, `top
      ensures Valid() && View() == Apply(old(View()), op)
      ensures op.Get? ==> v == old(View()).regs[(old(View()).top + op.i) % 8].value
    {
      hide Load80, Store80, SetReg;
      v := 0;
      match op
      case Get(i) => v := Fpget(i);
      case Set(i, x) => Fpset(i, x);
      case Push(x) =>
        top := (top + 7) % 8;
        SameRegs();
        Fpset(0, x);
      case Pop =>
        top := (top + 1) % 8;
        SameRegs();
    }

    lemma SwFits()
      requires sw < 65536 && top < 8
      ensures GetSw() < 65536
    {
    }

    /** The control and status words of FNSAVE; the tag word is stored as 0. */
    method SaveHeader(mem: array<byte>, addr: nat, wide: bool)
      requires cw < 65536 && sw < 65536 && top < 8 && SlotAt(addr, wide, 0) <= mem.Length
      modifies mem
      ensures Load(mem[..], addr, 2) == cw && Load(mem[..], addr + (if wide then 4 else 2), 2) == GetSw()
      ensures HeaderAt(mem[..], addr, if wide then 4 else 2, cw, GetSw())
      ensures Untouched(old(mem[..]), mem[..], addr, SlotAt(addr, wide, 0))
    {
      SwFits();
      if wide {
        WriteBytes(mem, addr, ToBytes(cw, 4));
        WriteBytes(mem, addr + 4, ToBytes(GetSw(), 4));
        WriteBytes(mem, addr + 8, ToBytes(0, 4));
      } else {
        WriteBytes(mem, addr, ToBytes(cw, 2));
        WriteBytes(mem, addr + 2, ToBytes(GetSw(), 2));
        WriteBytes(mem, addr + 4, ToBytes(0, 2));
      }
      WordStored(mem[..], addr, if wide then 4 else 2, cw);
      WordStored(mem[..], addr + (if wide then 4 else 2), if wide then 4 else 2, GetSw());
    }

    /** FRSTOR, free of faults. */
    method Frstor(mem: array<byte>, addr: nat, wide: bool)
      requires Valid() && SlotAt(addr, wide, 8) <= mem.Length
      modifies this
      ensures Valid() && (forall j :: 0 <= j < 8 ==> j !in rawtagr && j !in rawtagw)
      ensures cw == Load(mem[..], addr, 2) && GetSw() == Load(mem[..], addr + (if wide then 4 else 2), 2)
      ensures forall j :: 0 <= j < 8 ==>
                Image(j) == ImageAt(mem[..], SlotAt(addr, wide, j)) && Value(j) == Load80(Image(j))
    {
      hide Load80, Store80, Load, ImageAt;
      LoadWord(mem[..], addr);
      cw := Load(mem[..], addr, 2);
      LoadWord(mem[..], addr + (if wide then 4 else 2));
      SetSw(Load(mem[..], addr + (if wide then 4 else 2), 2));
      var start, j := addr + (if wide then 28 else 14), 0;
      while j < 8
        invariant 0 <= j <= 8 && start == SlotAt(addr, wide, j)
        invariant |st| == |rawst| == 8 && top < 8 && cw < 65536 && sw < 65536
        invariant cw == Load(mem[..], addr, 2) && GetSw() == Load(mem[..], addr + (if wide then 4 else 2), 2)
        invariant forall k :: 0 <= k < j ==>
                    k !in rawtagr && k !in rawtagw && rawst[k] == ImageAt(mem[..], SlotAt(addr, wide, k))
      {
        ImageValid(mem[..], start);
        rawst := rawst[j := ImageAt(mem[..], start)];
        rawtagr, rawtagw := rawtagr - {j}, rawtagw - {j};
        start := start + 10;
        j := j + 1;
      }
    }

    /** Every register turned into its image and stored. */
    method SaveImages(mem: array<byte>, addr: nat, wide: bool)
      requires |st| == |rawst| == 8 && SlotAt(addr, wide, 8) <= mem.Length
      modifies `rawst, `rawtagw, mem
      ensures |rawst| == 8 && Images() == old(Images())
      ensures forall j :: 0 <= j < 8 ==> j !in rawtagw && ImageAt(mem[..], SlotAt(addr, wide, j)) == rawst[j]
      ensures Untouched(old(mem[..]), mem[..], SlotAt(addr, wide, 0), SlotAt(addr, wide, 8))
    {
      hide Load80, Store80, ImageAt, Bytes80, Saved, Untouched;
      ghost var images := Images();
      NothingSaved(mem[..], addr, wide, images);
      var start, j := addr + (if wide then 28 else 14), 0;
      while j < 8
        invariant 0 <= j <= 8 && start == SlotAt(addr, wide, j)
        invariant |rawst| == 8
        invariant forall k :: j <= k < 8 ==> (k in rawtagw <==> k in old(rawtagw)) && rawst[k] == old(rawst[k])
        invariant forall k :: 0 <= k < j ==> k !in rawtagw && rawst[k] == images[k]
        invariant Saved(mem[..], addr, wide, images, j)
        invariant Untouched(old(mem[..]), mem[..], SlotAt(addr, wide, 0), start)
      {
        if j in rawtagw {
          rawst := rawst[j := Store80(st[j])];
          rawtagw := rawtagw - {j};
        }
        ghost var was := mem[..];
        StoreImage(mem, start, rawst[j]);
        SavedStep(was, mem[..], addr, wide, images, j);
        UntouchedJoin(old(mem[..]), was, mem[..], SlotAt(addr, wide, 0), start, start + 10);
        start := start + 10;
        j := j + 1;
      }
      SavedImages(mem[..], addr, wide, images);
    }

    /** FNSAVE, free of faults: everything is stored, and the unit is reset but for its registers. */
    method Fnsave(mem: array<byte>, addr: nat, wide: bool)
      requires Valid() && SlotAt(addr, wide, 8) <= mem.Length
      modifies this, mem
      ensures Valid() && cw == 0x37f && sw == 0 && top == 0
      ensures Load(mem[..], addr, 2) == old(cw) && Load(mem[..], addr + (if wide then 4 else 2), 2) == old(GetSw())
      ensures HeaderAt(mem[..], addr, if wide then 4 else 2, old(cw), old(GetSw()))
      ensures forall j :: 0 <= j < 8 ==> ImageAt(mem[..], SlotAt(addr, wide, j)) == old(Image(j)) == Image(j)
      ensures forall j :: 0 <= j < 8 ==>
                Value(j) == if j in old(rawtagw) && j !in rawtagr then Load80(Store80(old(Value(j)))) else old(Value(j))
      ensures Untouched(old(mem[..]), mem[..], addr, SlotAt(addr, wide, 8))
    {
      hide Load80, Store80, Load, ImageAt;
      SaveHeader(mem, addr, wide);
      ghost var header := mem[..];
      SaveImages(mem, addr, wide);
      HeaderStays(header, mem[..], addr, if wide then 4 else 2, cw, GetSw(),
                  SlotAt(addr, wide, 0), SlotAt(addr, wide, 8));
      HeaderKept(header, mem[..], addr, SlotAt(addr, wide, 0), SlotAt(addr, wide, 8));
      HeaderKept(header, mem[..], addr + (if wide then 4 else 2), SlotAt(addr, wide, 0), SlotAt(addr, wide, 8));
      assert forall j :: 0 <= j < 8 ==> Image(j) == Images()[j] == old(Images())[j] && old(Paired(j));
      sw, top, cw := 0, 0, 0x37f;
    }
  
    /** Any run of operations acts as on plain registers; `vs` are the values it reads. */
    method Run(ops: seq<Op>) returns (vs: seq<f64>)
      requires Valid()
      modifies `st, `rawtagr, `rawtagw, `top
      ensures Valid() && View() == ApplyAll(old(View()), ops) && vs == Reads(old(View()), ops)
      decreases |ops|
    {
      hide Load80, Store80, SetReg, Valid, Apply, View;
      if ops == [] { return []; }
      var v := Execute(ops[0]);
      var more := Run(ops[1..]);
      vs := (if ops[0].Get? then [v] else []) + more;
    }

    /** An image loaded by FRSTOR and not overwritten is stored back bit for bit, however often it was read. */
    method RestoreRunSave(mem: array<byte>, addr: nat, wide: bool, ops: seq<Op>, to: nat)
      requires Valid() && SlotAt(addr, wide, 8) <= mem.Length && SlotAt(to, wide, 8) <= mem.Length
      modifies this, mem
      ensures forall j ::
                0 <= j < 8 && j !in Written(old(Load(mem[..], addr + (if wide then 4 else 2), 2)) / 2048 % 8, ops) ==>
                var a, b := SlotAt(addr, wide, j), SlotAt(to, wide, j);
                mem[b..b + 10] == old(mem[a..a + 10])
    {
      hide Load80, Store80, Load, ImageAt, Bytes80;
      ghost var was := mem[..];
      Frstor(mem, addr, wide);
      ghost var p := View();
      TopOfSw();
      var _ := Run(ops);
      ghost var q := View();
      Fnsave(mem, to, wide);
      forall j | 0 <= j < 8 && j !in Written(p.top, ops)
        ensures var a, b := SlotAt(addr, wide, j), SlotAt(to, wide, j); mem[b..b + 10] == was[a..a + 10]
      {
        UnwrittenKept(p, ops, j);
        ImageBytes(was, SlotAt(addr, wide, j), p.regs[j].image);
        ImageBytes(mem[..], SlotAt(to, wide, j), p.regs[j].image);
      }
    }

    lemma TopOfSw()
      requires top < 8
      ensures GetSw() / 2048 % 8 == top
    {
      DivModUnique(GetSw(), 2048, sw / 16384 * 8 + top, sw % 2048);
      DivModUnique(sw / 16384 * 8 + top, 8, sw / 16384, top);
    }

    /** FNSAVE and FRSTOR bring everything back; only a subnormal that does not survive storing changes. */
    method SaveRestore(mem: array<byte>, addr: nat, wide: bool)
      requires Valid() && SlotAt(addr, wide, 8) <= mem.Length
      modifies this, mem
      ensures Valid() && cw == old(cw) && GetSw() == old(GetSw()) && top == old(top)
      ensures forall j :: 0 <= j < 8 ==> Image(j) == old(Image(j))
      ensures forall j :: 0 <= j < 8 && Survives(old(Value(j))) == old(Value(j)) ==> Value(j) == old(Value(j))
    {
      hide Load80, Store80, Load, ImageAt, Survives;
      TopOfSw();
      Fnsave(mem, addr, wide);
      Frstor(mem, addr, wide);
      TopOfSw();
      forall j | 0 <= j < 8 && Survives(old(Value(j))) == old(Value(j)) ensures Value(j) == old(Value(j)) {
        assert old(Paired(j));
        StoreLoad(old(Value(j)));
      }
    }
  }
}
