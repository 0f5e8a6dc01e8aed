/**
 Sector addresses of an IDE hard disk in its four address registers, by linear
 number (LBA) or by cylinder, head and sector (CHS).
 */
module IdeAddress {
  import opened Arith
  import opened GuestMemory

  /** The four registers that hold a sector address. */
  datatype Regs = Regs(select: nat, hcyl: nat, lcyl: nat, sector: nat)

  datatype Geometry = Geometry(heads: nat, sectors: nat)

  predicate ValidRegs(r: Regs) {
    r.select < 256 && r.hcyl < 256 && r.lcyl < 256 && r.sector < 256
  }

  predicate ValidGeometry(g: Geometry) {
    1 <= g.heads <= 16 && 1 <= g.sectors <= 255
  }

  predicate Lba(r: Regs) { r.select / 64 % 2 == 1 }

  /** ide_get_sector. */
  function GetSector(r: Regs, g: Geometry): (n: int) {
    if Lba(r) then r.select % 16 * 16777216 + r.hcyl * 65536 + r.lcyl * 256 + r.sector
    else (r.hcyl * 256 + r.lcyl) * g.heads * g.sectors + r.select % 16 * g.sectors + (r.sector - 1)
  }

  function ChsRegs(select: nat, cyl: nat, head: nat, sec: nat): (s: Regs) {
    Regs(select / 16 * 16 + head % 16, cyl / 256 % 256, cyl % 256, (sec + 1) % 256)
  }

  function Quotient(n: nat, d: nat): (q: nat)
    requires d > 0
  {
    n / d
  }

  function Rest(n: nat, d: nat): (r: nat)
    requires d > 0
  {
    n % d
  }

  function PerCylinder(g: Geometry): (k: nat)
    ensures ValidGeometry(g) ==> k > 0
  {
    if ValidGeometry(g) then MulGe(g.heads, g.sectors); g.heads * g.sectors else 0
  }

  /** ide_set_sector; every register keeps eight bits. */
  function SetSector(r: Regs, g: Geometry, n: nat): (s: Regs)
    requires ValidGeometry(g)
  {
    if Lba(r) then
      Regs(Or(r.select / 16 * 16, n / 16777216) % 256, n / 65536 % 256, n / 256 % 256, n % 256)
    else
      ChsRegs(r.select, Quotient(n, PerCylinder(g)), Quotient(Rest(n, PerCylinder(g)), g.sectors),
              Rest(Rest(n, PerCylinder(g)), g.sectors))
  }

  /** How many sectors the registers can name. */
  function Capacity(r: Regs, g: Geometry): (n: nat) {
    if Lba(r) then 0x1000_0000 else 65536 * PerCylinder(g)
  }

  /** What a round trip through the registers keeps. */
  predicate Names(s: Regs, r: Regs, g: Geometry, n: int) {
    ValidRegs(s) && GetSector(s, g) == n && Lba(s) == Lba(r) && s.select / 16 == r.select / 16
  }

  lemma NibbleOf(s: nat, low: nat)
    requires low < 16
    ensures (s / 16 * 16 + low) % 16 == low && (s / 16 * 16 + low) / 64 == s / 64
    ensures (s / 16 * 16 + low) / 16 == s / 16
  {
    DivModUnique(s / 16 * 16 + low, 16, s / 16, low);
    var q := s / 16;
    assert s / 64 == q / 4;
    DivModUnique(s / 16 * 16 + low, 64, q / 4, q % 4 * 16 + low);
  }

  /** A sector number written to the registers reads back. */
  lemma SectorRoundTrip(r: Regs, g: Geometry, n: nat)
    requires ValidRegs(r) && ValidGeometry(g) && n < Capacity(r, g)
    ensures Names(SetSector(r, g, n), r, g, n)
  {
    if Lba(r) {
      LbaRoundTrip(r, g, n);
    } else {
      ChsRoundTrip(r, g, n);
    }
  }

  lemma LbaRoundTrip(r: Regs, g: Geometry, n: nat)
    requires ValidRegs(r) && ValidGeometry(g) && Lba(r) && n < 0x1000_0000
    ensures Names(SetSector(r, g, n), r, g, n)
  {
    hide Or, PerCylinder, GetSector;
    var top, q := n / 16777216, r.select / 16;
    OrNibble(q, top);
    NibbleOf(r.select, top);
    assert q < 16 && top < 16;
    LbaSelect(q, top);
    LbaFields(q * 16 + top, r.select, g, n);
  }

  lemma LbaSelect(q: nat, top: nat)
    requires q < 16 && top < 16
    ensures (q * 16 + top) % 256 == q * 16 + top
  {
  }

  lemma LbaFields(select: nat, was: nat, g: Geometry, n: nat)
    requires select < 256 && select / 64 == was / 64 && was / 64 % 2 == 1
    requires select % 16 == n / 16777216 && select / 16 == was / 16
    ensures var s := Regs(select, n / 65536 % 256, n / 256 % 256, n % 256);
            ValidRegs(s) && GetSector(s, g) == n && Lba(s)
  {
    hide PerCylinder;
    FourBytes(n);
  }

  lemma OrNibble(q: nat, low: nat)
    requires low < 16
    ensures Or(q * 16, low) == q * 16 + low
  {
    assert Pow2(0) == 1 && Pow2(1) == 2 && Pow2(2) == 4 && Pow2(3) == 8 && Pow2(4) == 16;
    OrDisjoint(q, 4, low);
  }

  lemma FourBytes(n: nat)
    ensures n == n / 16777216 * 16777216 + n / 65536 % 256 * 65536 + n / 256 % 256 * 256 + n % 256
  {
    var a := n / 256;
    var b := a / 256;
    DivModUnique(n, 65536, b, a % 256 * 256 + n % 256);
    DivModUnique(n, 16777216, b / 256, b % 256 * 65536 + a % 256 * 256 + n % 256);
  }

  lemma ChsRoundTrip(r: Regs, g: Geometry, n: nat)
    requires ValidRegs(r) && ValidGeometry(g) && !Lba(r) && n < 65536 * PerCylinder(g)
    ensures Names(SetSector(r, g, n), r, g, n)
  {
    hide Lba, ValidRegs, GetSector, ChsRegs, Names, Quotient, Rest, PerCylinder;
    var hs := PerCylinder(g);
    ChsSplit(n, g);
    ChsFields(r, g, Quotient(n, hs), Quotient(Rest(n, hs), g.sectors), Rest(Rest(n, hs), g.sectors));
  }

  lemma ChsSplit(n: nat, g: Geometry)
    requires ValidGeometry(g) && n < 65536 * PerCylinder(g)
    ensures var hs, rest := PerCylinder(g), Rest(n, PerCylinder(g));
            && Quotient(n, hs) < 65536 && Quotient(rest, g.sectors) < g.heads && Rest(rest, g.sectors) < g.sectors
            && n == Quotient(n, hs) * hs + Quotient(rest, g.sectors) * g.sectors + Rest(rest, g.sectors)
  {
    var hs := PerCylinder(g);
    QuotientBound(n, hs, 65536);
    QuotientBound(n % hs, g.sectors, g.heads);
  }

  /** Cylinder, head and sector put into registers. */
  lemma ChsFields(r: Regs, g: Geometry, cyl: nat, head: nat, sec: nat)
    requires ValidRegs(r) && ValidGeometry(g) && !Lba(r) && cyl < 65536 && head < 16 && sec < 255
    ensures Names(ChsRegs(r.select, cyl, head, sec), r, g, cyl * PerCylinder(g) + head * g.sectors + sec)
  {
    hide GetSector, PerCylinder, ValidGeometry;
    NibbleOf(r.select, head);
    var s := ChsRegs(r.select, cyl, head, sec);
    assert s.hcyl * 256 + s.lcyl == cyl && s.sector == sec + 1 && s.select % 16 == head;
    assert Lba(s) == Lba(r) && ValidRegs(s) && s.select / 16 == r.select / 16;
    GetChs(s, g);
  }

  lemma GetChs(s: Regs, g: Geometry)
    requires !Lba(s) && ValidGeometry(g)
    ensures GetSector(s, g) == (s.hcyl * 256 + s.lcyl) * PerCylinder(g) + s.select % 16 * g.sectors + (s.sector - 1)
  {
    hide Lba;
    MulAssoc(s.hcyl * 256 + s.lcyl, g.heads, g.sectors);
  }

  /** Conversely a proper address survives being read and written. */
  lemma RegistersRoundTrip(r: Regs, g: Geometry)
    requires ValidRegs(r) && ValidGeometry(g)
    requires !Lba(r) ==> r.select % 16 < g.heads && 1 <= r.sector <= g.sectors
    ensures GetSector(r, g) >= 0 && SetSector(r, g, GetSector(r, g)) == r
  {
    if Lba(r) {
      LbaRegisters(r, g);
    } else {
      ChsRegisters(r, g);
    }
  }

  lemma LbaRegisters(r: Regs, g: Geometry)
    requires ValidRegs(r) && ValidGeometry(g) && Lba(r)
    ensures SetSector(r, g, GetSector(r, g)) == r
  {
    var top := r.select % 16;
    var a := top * 256 + r.hcyl;
    var b := a * 256 + r.lcyl;
    var n := b * 256 + r.sector;
    assert n == GetSector(r, g);
    DivModUnique(n, 256, b, r.sector);
    DivModUnique(b, 256, a, r.lcyl);
    DivModUnique(a, 256, top, r.hcyl);
    DivModUnique(n, 65536, a, r.lcyl * 256 + r.sector);
    DivModUnique(n, 16777216, top, r.hcyl * 65536 + r.lcyl * 256 + r.sector);
    OrNibble(r.select / 16, top);
  }

  lemma ChsRegisters(r: Regs, g: Geometry)
    requires ValidRegs(r) && ValidGeometry(g) && !Lba(r)
    requires r.select % 16 < g.heads && 1 <= r.sector <= g.sectors
    ensures GetSector(r, g) >= 0 && SetSector(r, g, GetSector(r, g)) == r
  {
    hide Lba, GetSector, PerCylinder, Quotient, Rest;
    var cyl, head, sec := r.hcyl * 256 + r.lcyl, r.select % 16, r.sector - 1;
    GetChs(r, g);
    ChsJoin(cyl, head, sec, g);
    DivModUnique(cyl, 256, r.hcyl, r.lcyl);
    assert ChsRegs(r.select, cyl, head, sec) == r;
  }

  lemma ChsJoin(cyl: nat, head: nat, sec: nat, g: Geometry)
    requires ValidGeometry(g) && head < g.heads && sec < g.sectors
    ensures var hs, n := PerCylinder(g), cyl * PerCylinder(g) + head * g.sectors + sec;
            n >= 0 && Quotient(n, hs) == cyl && Quotient(Rest(n, hs), g.sectors) == head
            && Rest(Rest(n, hs), g.sectors) == sec
  {
    var hs := PerCylinder(g);
    MulDistrib(g.heads - head, head, g.sectors);
    MulGe(g.heads - head, g.sectors);
    MulNonNeg(head, g.sectors);
    MulNonNeg(cyl, hs);
    DivModUnique(cyl * hs + head * g.sectors + sec, hs, cyl, head * g.sectors + sec);
    DivModUnique(head * g.sectors + sec, g.sectors, head, sec);
  }

  /** ---- What the registers name ---- */

  /** With bit 6 of the select register, the number has 28 bits, lowest byte in the sector register. */
  lemma LbaNumber(r: Regs, g: Geometry)
    requires ValidRegs(r) && r.select / 64 % 2 == 1
    ensures GetSector(r, g) == FromBytes([r.sector, r.lcyl, r.hcyl, r.select % 16])
  {
    FromBytes4(r.sector, r.lcyl, r.hcyl, r.select % 16);
  }

  /** The address that follows on the disk: by sectors from 1 up, then heads, then cylinders. */
  predicate Follows(s: Regs, r: Regs, g: Geometry) {
    var cyl, next := r.hcyl * 256 + r.lcyl, s.hcyl * 256 + s.lcyl;
    if r.sector < g.sectors then next == cyl && s.select % 16 == r.select % 16 && s.sector == r.sector + 1
    else if r.select % 16 + 1 < g.heads then next == cyl && s.select % 16 == r.select % 16 + 1 && s.sector == 1
    else next == cyl + 1 && s.select % 16 == 0 && s.sector == 1
  }

  /** Without that bit, addresses are numbered in this order from 0 on. */
  lemma ChsNumber(r: Regs, s: Regs, g: Geometry)
    requires ValidRegs(r) && ValidRegs(s) && ValidGeometry(g)
    requires r.select / 64 % 2 == s.select / 64 % 2 == 0 && r.select % 16 < g.heads && 1 <= r.sector <= g.sectors
    ensures r.hcyl == r.lcyl == r.select % 16 == 0 && r.sector == 1 ==> GetSector(r, g) == 0
    ensures Follows(s, r, g) ==> GetSector(s, g) == GetSector(r, g) + 1
  {
    hide GetSector, PerCylinder;
    GetChs(r, g);
    GetChs(s, g);
    ChsNext(r.hcyl * 256 + r.lcyl, r.select % 16, g);
  }

  lemma ChsNext(cyl: nat, head: nat, g: Geometry)
    requires ValidGeometry(g) && head < g.heads
    ensures (cyl + 1) * PerCylinder(g) == cyl * PerCylinder(g) + PerCylinder(g) && 0 * PerCylinder(g) == 0
    ensures (head + 1) * g.sectors == head * g.sectors + g.sectors && 0 * g.sectors == 0
    ensures head + 1 == g.heads ==> (head + 1) * g.sectors == PerCylinder(g)
  {
  }
}
