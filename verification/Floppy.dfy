/**
 Floppy sector transfers by DMA: the 8237 channel that moves bytes to and from
 guest memory, and the controller that steps through cylinders, heads and
 sectors until the channel reaches terminal count.
 */
module Floppy {
  import opened GuestMemory
  import opened Arith

  const SECTOR: nat := 512

  /** ---- Sector order ---- */

  datatype Chs = Chs(cyl: nat, head: nat, sector: nat)

  /** fdc_chs_to_offset for a disk of two heads. */
  function Offset(c: Chs, sects: nat): (off: int) {
    ((c.cyl * 2 + c.head) * sects + (c.sector - 1)) * SECTOR
  }

  /** The step to the next sector, on 8-bit registers. */
  function Next(c: Chs, sects: nat, eot: nat): (d: Chs) {
    var s := (c.sector + 1) % 256;
    if s > sects || s > eot then
      if c.head == 0 then Chs(c.cyl, 1, 1) else Chs((c.cyl + 1) % 256, 0, 1)
    else Chs(c.cyl, c.head, s)
  }

  predicate OnDisk(c: Chs, sects: nat) {
    c.cyl < 256 && c.head < 2 && 1 <= c.sector <= sects
  }

  /** The step follows the image exactly when EOT does not cut the track short here. */
  lemma NextIsContiguous(c: Chs, sects: nat, eot: nat)
    requires OnDisk(c, sects) && 1 <= sects <= 254 && c.cyl < 255
    ensures OnDisk(Next(c, sects, eot), sects)
    ensures Offset(Next(c, sects, eot), sects) == Offset(c, sects) + SECTOR <==> !(eot <= c.sector < sects)
  {
    var track := c.cyl * 2 + c.head;
    MulDistrib(track, 1, sects);
    assert (c.cyl * 2 + c.head) * sects == track * sects;
    if c.sector + 1 > sects || c.sector + 1 > eot {
      var d := Next(c, sects, eot);
      assert d.cyl * 2 + d.head == track + 1;
      assert Offset(d, sects) == (track * sects + sects) * SECTOR;
    }
  }

  /** Sectors lie in the image in the order of their numbers, then heads, then cylinders, from byte 0 on. */
  lemma ImageOrder(c: Chs, d: Chs, sects: nat)
    requires OnDisk(c, sects)
    ensures Offset(Chs(0, 0, 1), sects) == 0
    ensures (if c.sector < sects then d == Chs(c.cyl, c.head, c.sector + 1)
             else if c.head == 0 then d == Chs(c.cyl, 1, 1)
             else d == Chs(c.cyl + 1, 0, 1)) ==>
              Offset(d, sects) == Offset(c, sects) + 512
  {
    MulDistrib(c.cyl * 2 + c.head, 1, sects);
    assert (c.cyl * 2 + 1) * sects == c.cyl * 2 * sects + sects;
    assert ((c.cyl + 1) * 2 + 0) * sects == (c.cyl * 2 + 1) * sects + sects;
  }

  /** ---- The DMA channel ---- */

  /** The guest address of byte `i` of a transfer. */
  function AddrOf(addr: nat, down: bool, i: nat): (a: int) { if down then addr - i else addr + i }

  predicate InMemory(addr: nat, down: bool, len: nat, memory: nat) {
    if down then addr < memory && len <= addr + 1 else addr + len <= memory
  }

  /** `bs` has been stored from position `pos` of the transfer on, and nothing else has changed. */
  ghost predicate Moved(was: seq<byte>, now: seq<byte>, addr: nat, down: bool, pos: nat, bs: seq<byte>) {
    && |was| == |now|
    && forall k {:trigger now[k]} :: 0 <= k < |now| ==>
         var i := (if down then addr - k else k - addr) - pos;
         now[k] == if 0 <= i < |bs| then bs[i] else was[k]
  }

  /** The bytes a transfer fetches from position `pos` on. */
  function Fetched(mem: seq<byte>, addr: nat, down: bool, pos: nat, n: nat): (bs: seq<byte>)
    requires InMemory(addr, down, pos + n, |mem|)
    ensures |bs| == n
  {
    seq(n, i requires 0 <= i < n => mem[AddrOf(addr, down, pos + i)])
  }

  /** Upwards, a transfer is a slice of guest memory; downwards, it is one taken backwards. */
  lemma FetchedOrder(mem: seq<byte>, addr: nat, pos: nat, n: nat, k: nat)
    requires k < n
    ensures InMemory(addr, false, pos + n, |mem|) ==>
              Fetched(mem, addr, false, pos, n) == mem[addr + pos..addr + pos + n]
    ensures InMemory(addr, true, pos + n, |mem|) ==> Fetched(mem, addr, true, pos, n)[k] == mem[addr - pos - k]
  {
    if InMemory(addr, false, pos + n, |mem|) {
      var x, y := Fetched(mem, addr, false, pos, n), mem[addr + pos..addr + pos + n];
      forall i | 0 <= i < n ensures x[i] == y[i] {
        assert AddrOf(addr, false, pos + i) == addr + pos + i;
      }
    }
    if InMemory(addr, true, pos + n, |mem|) {
      assert AddrOf(addr, true, pos + k) == addr - pos - k;
    }
  }

  lemma MovedOrder(was: seq<byte>, now: seq<byte>, addr: nat, pos: nat, bs: seq<byte>, k: nat)
    requires k < |bs|
    ensures InMemory(addr, false, pos + |bs|, |was|) ==>
              (Moved(was, now, addr, false, pos, bs) <==> now == Splice(was, addr + pos, bs))
    ensures InMemory(addr, true, pos + |bs|, |was|) && Moved(was, now, addr, true, pos, bs) ==>
              now[addr - pos - k] == bs[k]
  {
  }

  lemma MovedNothing(m: seq<byte>, addr: nat, down: bool, pos: nat)
    ensures Moved(m, m, addr, down, pos, [])
  {
  }

  lemma MovedJoin(m0: seq<byte>, m1: seq<byte>, m2: seq<byte>, addr: nat, down: bool, pos: nat,
                  x: seq<byte>, y: seq<byte>)
    requires Moved(m0, m1, addr, down, pos, x) && Moved(m1, m2, addr, down, pos + |x|, y)
    ensures Moved(m0, m2, addr, down, pos, x + y)
  {
  }

  lemma FetchedJoin(mem: seq<byte>, addr: nat, down: bool, pos: nat, n: nat, k: nat)
    requires InMemory(addr, down, pos + n + k, |mem|)
    ensures Fetched(mem, addr, down, pos, n) + Fetched(mem, addr, down, pos + n, k) ==
              Fetched(mem, addr, down, pos, n + k)
  {
  }

  class DmaChannel {
    const mem: array<byte>       // guest memory
    var addr: nat                // page registers and current address
    var down: bool               // mode bit 5
    var autoInit: bool           // mode bit 4
    var verify: bool             // transfer type 0
    var baseCount: nat
    var nowCount: nat
    var terminal: bool           // status bit
    var masked: bool
    var dreq: bool

    constructor (mem: array<byte>)
      ensures this.mem == mem && !dreq && !terminal
    {
      this.mem := mem;
      addr, baseCount, nowCount := 0, 0, 0;
      down, autoInit, verify, terminal, masked, dreq := false, false, false, false, true, false;
    }

    function Length(): (n: nat)
      reads this
    {
      baseCount + 1
    }

    /** i8257_dma_write_memory: `len` bytes of `buf` from `at` on to position `pos`. */
    method WriteMemory(buf: array<byte>, at: nat, pos: nat, len: nat)
      requires at + len <= buf.Length && InMemory(addr, down, pos + len, mem.Length) && buf != mem
      modifies mem
      ensures Moved(old(mem[..]), mem[..], addr, down, pos, if verify then [] else buf[at..at + len])
    {
      if verify { return; }
      var i := 0;
      while i < len
        invariant 0 <= i <= len && Moved(old(mem[..]), mem[..], addr, down, pos, buf[at..at + i])
      {
        mem[if down then addr - pos - i else addr + pos + i] := buf[at + i];
        i := i + 1;
      }
    }

    /** i8257_dma_read_memory. */
    method ReadMemory(buf: array<byte>, at: nat, pos: nat, len: nat)
      requires at + len <= buf.Length && InMemory(addr, down, pos + len, mem.Length) && buf != mem
      modifies buf
      ensures buf[..at] == old(buf[..at]) && buf[at + len..] == old(buf[at + len..])
      ensures buf[at..at + len] == if verify then old(buf[at..at + len]) else Fetched(mem[..], addr, down, pos, len)
    {
      if verify { return; }
      var i := 0;
      while i < len
        invariant 0 <= i <= len
        invariant forall k :: 0 <= k < buf.Length ==>
                    buf[k] == if at <= k < at + i then mem[AddrOf(addr, down, pos + k - at)] else old(buf[k])
      {
        buf[at + i] := mem[if down then addr - pos - i else addr + pos + i];
        i := i + 1;
      }
    }
  }

  lemma CylinderBound(c: Chs, sects: nat, size: nat)
    requires OnDisk(c, sects) && 0 <= Offset(c, sects) && Offset(c, sects) + SECTOR <= size <= 255 * 2 * sects * SECTOR
    ensures c.cyl < 255
  {
    if c.cyl >= 255 {
      MulDistrib(c.cyl * 2 + c.head - 510, 510, sects);
      MulNonNeg(c.cyl * 2 + c.head - 510, sects);
    }
  }

  lemma OffsetNonNeg(c: Chs, sects: nat)
    requires OnDisk(c, sects)
    ensures 0 <= Offset(c, sects) && Offset(c, sects) % SECTOR == 0
  {
    MulNonNeg(c.cyl * 2 + c.head, sects);
    var k := (c.cyl * 2 + c.head) * sects + (c.sector - 1);
    DivModUnique(k * SECTOR, SECTOR, k, 0);
  }

  /** ---- The controller ---- */

  datatype Phase = Command | Execution | Result

  /** The bytes a channel delivers to a write; a verify transfer leaves the zeroed buffer as it is. */
  function Delivered(verify: bool, mem: seq<byte>, addr: nat, down: bool, pos: nat, n: nat): (bs: seq<byte>)
    requires InMemory(addr, down, pos + n, |mem|)
    ensures |bs| == n
  {
    if verify then seq(n, _ => 0) else Fetched(mem, addr, down, pos, n)
  }

  lemma DeliveredJoin(verify: bool, mem: seq<byte>, addr: nat, down: bool, pos: nat, n: nat, k: nat)
    requires InMemory(addr, down, pos + n + k, |mem|)
    ensures Delivered(verify, mem, addr, down, pos, n) + Delivered(verify, mem, addr, down, pos + n, k)
            == Delivered(verify, mem, addr, down, pos, n + k)
  {
    FetchedJoin(mem, addr, down, pos, n, k);
  }

  class Fdc {
    const sects: nat
    const sectorBuf: array<byte>
    var cur: Chs
    var eot: nat
    var dmaActive: bool
    var dmaWrite: bool
    var bufPos: nat
    var fileOff: nat
    var phase: Phase
    var result: seq<nat>
    var irqPending: nat          // completions scheduled
    var image: seq<byte>

    constructor (sects: nat, image: seq<byte>)
      requires 1 <= sects <= 254 && |image| <= 255 * 2 * sects * SECTOR
      ensures Idle() && this.sects == sects && this.image == image && fresh(sectorBuf) && irqPending == 0
    {
      this.sects, this.image := sects, image;
      sectorBuf := new byte[SECTOR](_ => 0);
      cur, eot, dmaActive, dmaWrite, bufPos, fileOff := Chs(0, 0, 1), 0, false, false, SECTOR, 0;
      phase, result, irqPending := Command, [], 0;
    }

    ghost predicate Idle()
      reads this
    {
      !dmaActive && 1 <= sects <= 254 && sectorBuf.Length == SECTOR && |image| <= 255 * 2 * sects * SECTOR
    }

    /** How much of the current sector has been moved. */
    function InSector(): (n: nat)
      reads `bufPos
    {
      if bufPos >= SECTOR then 0 else bufPos
    }

    /** Where in the image the transfer stands. */
    function Position(): (p: int)
      reads `cur, `bufPos
    {
      Offset(cur, sects) + InSector()
    }

    /** A command under way on a disk whose tracks EOT does not cut short. */
    ghost predicate Active()
      reads this, sectorBuf
    {
      && dmaActive && 1 <= sects <= 254 && eot >= sects && sectorBuf.Length == SECTOR
      && |image| <= 255 * 2 * sects * SECTOR
      && OnDisk(cur, sects) && 0 <= Offset(cur, sects) && bufPos <= SECTOR
      && (bufPos < SECTOR ==>
           && fileOff == Offset(cur, sects) && fileOff + SECTOR <= |image|
           && if dmaWrite then forall k :: bufPos <= k < SECTOR ==> sectorBuf[k] == 0
              else sectorBuf[..] == image[fileOff..fileOff + SECTOR])
    }

    /** The part of the current sector received and not yet in the image. */
    ghost function Held(): (bs: seq<byte>)
      requires sectorBuf.Length == SECTOR
      reads this, sectorBuf
    {
      sectorBuf[..InSector()]
    }

    /** fdc_start_dma. */
    method StartDma(ch: DmaChannel, write: bool, c: Chs, eot: nat)
      requires Idle() && OnDisk(c, sects) && eot >= sects
      modifies `cur, `eot, `dmaActive, `dmaWrite, `bufPos, `phase, ch`dreq
      ensures Active() && bufPos == SECTOR && dmaWrite == write && cur == c && phase == Execution && ch.dreq
    {
      dmaWrite, cur, this.eot := write, c, eot;
      bufPos, dmaActive, phase := SECTOR, true, Execution;
      OffsetNonNeg(c, sects);
      ch.dreq := true;
    }

    /** fdc_finish_rw: one seven-byte result, one completion interrupt. */
    method FinishRw(st0: nat, st1: nat, c: Chs)
      modifies `phase, `result, `irqPending
      ensures phase == Result && result == [st0, st1, 0, c.cyl, c.head, c.sector, 2]
      ensures irqPending == old(irqPending) + 1
    {
      result, phase, irqPending := [st0, st1, 0, c.cyl, c.head, c.sector, 2], Result, irqPending + 1;
    }

    /** READ DATA and WRITE DATA up to the start of the transfer (drive 0, geometry of `cyls` cylinders). */
    method ReadOrWrite(ch: DmaChannel, write: bool, inserted: bool, cyls: nat, c: Chs, eot: nat)
      requires Idle() && cyls <= 255 && eot >= sects
      modifies `cur, `eot, `dmaActive, `dmaWrite, `bufPos, `phase, `result, `irqPending, ch`dreq
      ensures if !inserted then Refused(0x48, 1, c) && irqPending == old(irqPending) + 1
              else if !(OnDisk(c, sects) && c.cyl < cyls) then Refused(0x40, 4, c) && irqPending == old(irqPending) + 1
              else Active() && bufPos == SECTOR && dmaWrite == write && Position() == Offset(c, sects)
                   && irqPending == old(irqPending) && ch.dreq
    {
      if !inserted { FinishRw(0x48, 1, c); return; }
      if !(1 <= c.sector <= sects && c.cyl < cyls && c.head < 2) { FinishRw(0x40, 4, c); return; }
      StartDma(ch, write, c, eot);
    }

    /** A command that ended before any transfer. */
    ghost predicate Refused(st0: nat, st1: nat, c: Chs)
      reads this
    {
      Idle() && phase == Result && result == [st0, st1, 0, c.cyl, c.head, c.sector, 2]
    }

    /** Fill the sector buffer: from the image when reading, with zeros when writing. */
    method LoadSector() returns (ok: bool)
      requires Active() && bufPos == SECTOR && (dmaWrite ==> Offset(cur, sects) + SECTOR <= |image|)
      modifies `bufPos, `fileOff, sectorBuf
      ensures Active() && Position() == old(Position())
      ensures if ok then bufPos == 0 else bufPos == SECTOR
      ensures ok == (Offset(cur, sects) + SECTOR <= |image|)
    {
      hide Offset, OnDisk;
      var off: nat := Offset(cur, sects);
      if !dmaWrite {
        if off + SECTOR > |image| { return false; }
        WriteBytes(sectorBuf, 0, image[off..off + SECTOR]);
        assert sectorBuf[..] == image[off..off + SECTOR];
      } else {
        WriteBytes(sectorBuf, 0, seq(SECTOR, _ => 0));
      }
      bufPos, fileOff := 0, off;
      return true;
    }

    /** Step to the next sector once the buffer is used up. */
    method Advance()
      requires dmaActive && 1 <= sects <= 254 && eot >= sects && sectorBuf.Length == SECTOR && bufPos == SECTOR
      requires |image| <= 255 * 2 * sects * SECTOR && OnDisk(cur, sects) && 0 <= Offset(cur, sects)
      requires Offset(cur, sects) + SECTOR <= |image|
      modifies `cur
      ensures Active() && Offset(cur, sects) == old(Offset(cur, sects)) + SECTOR
    {
      CylinderBound(cur, sects, |image|);
      NextIsContiguous(cur, sects, eot);
      cur := Next(cur, sects, eot);
    }

    /** One turn of the read loop: at most the rest of a sector, to guest memory. */
    method ReadPart(ch: DmaChannel, pos: nat, remaining: nat) returns (ok: bool, chunk: nat)
      requires Active() && !dmaWrite && remaining > 0 && ch.mem != sectorBuf
      requires InMemory(ch.addr, ch.down, pos + remaining, ch.mem.Length)
      modifies `bufPos, `fileOff, `cur, sectorBuf, ch.mem
      ensures Active() && chunk <= remaining
      ensures ok ==> chunk > 0 && 0 <= old(Position()) && Position() == old(Position()) + chunk <= |image|
      ensures ok ==> Moved(old(ch.mem[..]), ch.mem[..], ch.addr, ch.down, pos,
                           if ch.verify then [] else image[old(Position())..old(Position()) + chunk])
      ensures !ok ==> Offset(cur, sects) + SECTOR > |image| && Position() == old(Position()) == Offset(cur, sects)
      ensures !ok ==> ch.mem[..] == old(ch.mem[..])
    {
      hide Offset, OnDisk, Moved;
      ok, chunk := true, 0;
      if bufPos >= SECTOR {
        ok := LoadSector();
        if !ok { return; }
      }
      chunk := if SECTOR - bufPos < remaining then SECTOR - bufPos else remaining;
      ch.WriteMemory(sectorBuf, bufPos, pos, chunk);
      SliceOfSlice(image, fileOff, SECTOR, bufPos, bufPos + chunk);
      bufPos := bufPos + chunk;
      if bufPos >= SECTOR { Advance(); }
    }
  
    /** Bytes from the channel into the zeroed rest of the buffer. */
    method Collect(ch: DmaChannel, pos: nat, chunk: nat)
      requires sectorBuf.Length == SECTOR && bufPos + chunk <= SECTOR && ch.mem != sectorBuf
      requires InMemory(ch.addr, ch.down, pos + chunk, ch.mem.Length)
      requires forall k :: bufPos <= k < SECTOR ==> sectorBuf[k] == 0
      modifies `bufPos, sectorBuf
      ensures bufPos == old(bufPos) + chunk
      ensures sectorBuf[..bufPos] ==
                old(sectorBuf[..bufPos]) + Delivered(ch.verify, ch.mem[..], ch.addr, ch.down, pos, chunk)
      ensures forall k :: bufPos <= k < SECTOR ==> sectorBuf[k] == 0
    {
      ghost var was := sectorBuf[..];
      assert was[bufPos..bufPos + chunk] == seq(chunk, _ => 0);
      ch.ReadMemory(sectorBuf, bufPos, pos, chunk);
      HeldGrows(sectorBuf[..], was[..bufPos], bufPos, chunk,
                Delivered(ch.verify, ch.mem[..], ch.addr, ch.down, pos, chunk));
      TailKept(was, sectorBuf[..], bufPos + chunk);
      bufPos := bufPos + chunk;
    }

    /** One turn of the write loop: a full buffer goes to the image. */
    method WritePart(ch: DmaChannel, pos: nat, remaining: nat) returns (chunk: nat)
      requires Active() && dmaWrite && remaining > 0 && ch.mem != sectorBuf
      requires InMemory(ch.addr, ch.down, pos + remaining, ch.mem.Length)
      requires Offset(cur, sects) + SECTOR <= |image|
      modifies `bufPos, `fileOff, `cur, `image, sectorBuf
      ensures Active() && 0 < chunk <= remaining && Position() == old(Position()) + chunk
      ensures |image| == old(|image|) && 0 <= old(Offset(cur, sects))
      ensures var got := old(Held()) + Delivered(ch.verify, ch.mem[..], ch.addr, ch.down, pos, chunk);
              if |got| < SECTOR then Held() == got && image == old(image) && cur == old(cur)
              else |got| == SECTOR && Held() == [] && image == Splice(old(image), old(Offset(cur, sects)), got)
    {
      hide Offset, OnDisk, Delivered, Splice, InMemory;
      if bufPos >= SECTOR { var _ := LoadSector(); }
      assert sectorBuf[..bufPos] == old(Held());
      chunk := if SECTOR - bufPos < remaining then SECTOR - bufPos else remaining;
      LessInMemory(ch.addr, ch.down, pos + chunk, pos + remaining, ch.mem.Length);
      Collect(ch, pos, chunk);
      if bufPos >= SECTOR {
        assert sectorBuf[..bufPos] == sectorBuf[..];
        image := Splice(image, fileOff, sectorBuf[..]);
        Advance();
      }
    }

    /** The read loop: the image from the current position on, up to the last whole sector it holds. */
    method ReadLoop(ch: DmaChannel, pos: nat, len: nat) returns (ok: bool, moved: nat)
      requires Active() && !dmaWrite && ch.mem != sectorBuf && pos <= len
      requires InMemory(ch.addr, ch.down, len, ch.mem.Length) && 0 <= Position() <= |image|
      modifies `bufPos, `fileOff, `cur, sectorBuf, ch.mem
      ensures Active() && moved <= len - pos && Position() == old(Position()) + moved <= |image|
      ensures Moved(old(ch.mem[..]), ch.mem[..], ch.addr, ch.down, pos,
                    if ch.verify then [] else image[old(Position())..old(Position()) + moved])
      ensures if ok then moved == len - pos
              else moved < len - pos && (old(Position()) + moved) % SECTOR == 0
                   && old(Position()) + moved + SECTOR > |image|
    {
      hide Active, Moved, Offset, InMemory;
      ok, moved := true, 0;
      ghost var p: nat, was := Position(), ch.mem[..];
      MovedNothing(was, ch.addr, ch.down, pos);
      assert image[p..p] == [];
      while pos + moved < len
        invariant Active() && ok && moved <= len - pos && Position() == p + moved <= |image|
        invariant Moved(was, ch.mem[..], ch.addr, ch.down, pos, if ch.verify then [] else image[p..p + moved])
      {
        var chunk;
        ghost var before := ch.mem[..];
        LessPosition();
        ok, chunk := ReadPart(ch, pos + moved, len - pos - moved);
        if !ok {
          OffsetAligned();
          return;
        }
        MovedFurther(was, before, ch.mem[..], ch.addr, ch.down, pos, moved, ch.verify, image, p, chunk);
        moved := moved + chunk;
      }
    }

    lemma OffsetAligned()
      requires Active()
      ensures Offset(cur, sects) % SECTOR == 0
    {
      OffsetNonNeg(cur, sects);
    }

    lemma LessPosition()
      requires Active()
      ensures sectorBuf.Length == SECTOR && |Held()| == InSector()
      ensures Offset(cur, sects) % SECTOR == 0
      ensures 0 <= Offset(cur, sects) <= Position() < Offset(cur, sects) + SECTOR && Position() % SECTOR == InSector()
    {
      hide Offset;
      OffsetNonNeg(cur, sects);
      var k := Offset(cur, sects) / SECTOR;
      DivModUnique(Position(), SECTOR, k, InSector());
    }

    /** Where a write stands after `t` bytes: `img` is the image it began with, `p` where. */
    ghost predicate Writing(ch: DmaChannel, pos: nat, t: nat, img: seq<byte>, p: nat)
      reads this, sectorBuf, ch, ch.mem
    {
      && Active() && dmaWrite && Position() == p + t && |image| == |img| && p % SECTOR == 0 && ch.mem != sectorBuf
      && InMemory(ch.addr, ch.down, pos + t, ch.mem.Length)
      && Placed(img, image, Held(), p, Delivered(ch.verify, ch.mem[..], ch.addr, ch.down, pos, t))
    }

    method WriteTurn(ch: DmaChannel, pos: nat, t: nat, len: nat, ghost img: seq<byte>, ghost p: nat)
      returns (chunk: nat)
      requires Writing(ch, pos, t, img, p) && pos + t < len && InMemory(ch.addr, ch.down, len, ch.mem.Length)
      requires p + RoundUp(len - pos) <= |img|
      modifies `bufPos, `fileOff, `cur, `image, sectorBuf
      ensures 0 < chunk <= len - pos - t && Writing(ch, pos, t + chunk, img, p)
    {
      hide Active, Offset, InMemory, Delivered, Placed, Held, RoundUp, Position, Splice;
      LessPosition();
      ghost var was, held, off: nat := image, Held(), Offset(cur, sects);
      ghost var data := Delivered(ch.verify, ch.mem[..], ch.addr, ch.down, pos, t);
      PlacedLength(img, was, held, p, data);
      SectorAhead(p, t, |held|, len - pos, off);
      chunk := WritePart(ch, pos + t, len - pos - t);
      LessInMemory(ch.addr, ch.down, pos + t + chunk, len, ch.mem.Length);
      DeliveredJoin(ch.verify, ch.mem[..], ch.addr, ch.down, pos, t, chunk);
      PlacedStep(img, was, held, p, data, Delivered(ch.verify, ch.mem[..], ch.addr, ch.down, pos + t, chunk),
                 image, Held(), off);
    }

    /** The write loop: every whole sector delivered goes to the image, the rest stays in the buffer. */
    method WriteLoop(ch: DmaChannel, pos: nat, len: nat)
      requires Active() && dmaWrite && bufPos == SECTOR && ch.mem != sectorBuf && pos <= len
      requires InMemory(ch.addr, ch.down, len, ch.mem.Length)
      requires Position() + RoundUp(len - pos) <= |image|
      modifies `bufPos, `fileOff, `cur, `image, sectorBuf
      ensures Active() && 0 <= old(Position()) && |image| == old(|image|) && Position() == old(Position()) + len - pos
      ensures var data := Delivered(ch.verify, ch.mem[..], ch.addr, ch.down, pos, len - pos);
              var whole := (len - pos) / SECTOR * SECTOR;
              && old(Position()) + whole <= |image|
              && image == Splice(old(image), old(Position()), data[..whole]) && Held() == data[whole..]
    {
      hide Active, Offset, InMemory, Delivered, Held, RoundUp, Writing, Position, Splice;
      BeginWriting(ch, pos, len);
      ghost var p: nat, img := Position(), image;
      var t := 0;
      while pos + t < len
        invariant t <= len - pos && Writing(ch, pos, t, img, p)
      {
        var chunk := WriteTurn(ch, pos, t, len, img, p);
        t := t + chunk;
      }
      EndWriting(ch, pos, t, img, p);
    }

    lemma BeginWriting(ch: DmaChannel, pos: nat, len: nat)
      requires Active() && dmaWrite && bufPos == SECTOR && ch.mem != sectorBuf && pos <= len
      requires InMemory(ch.addr, ch.down, len, ch.mem.Length) && Position() <= |image|
      ensures 0 <= Position() && Writing(ch, pos, 0, image, Position())
    {
      hide Active, Offset, InMemory, Delivered, Placed, Held;
      LessPosition();
      LessInMemory(ch.addr, ch.down, pos, len, ch.mem.Length);
      PlacedNothing(image, Held(), Position(), Delivered(ch.verify, ch.mem[..], ch.addr, ch.down, pos, 0));
    }

    lemma EndWriting(ch: DmaChannel, pos: nat, t: nat, img: seq<byte>, p: nat)
      requires Writing(ch, pos, t, img, p)
      ensures Active() && |image| == |img| && Position() == p + t && sectorBuf.Length == SECTOR
      ensures InMemory(ch.addr, ch.down, pos + t, ch.mem.Length)
      ensures var data, whole := Delivered(ch.verify, ch.mem[..], ch.addr, ch.down, pos, t), t / SECTOR * SECTOR;
              p + whole <= |img| && image == Splice(img, p, data[..whole]) && Held() == data[whole..]
    {
      hide Active, Offset, InMemory, Delivered, Placed, Held, Splice;
      LessPosition();
      PlacedLength(img, image, Held(), p, Delivered(ch.verify, ch.mem[..], ch.addr, ch.down, pos, t));
      WholeSectors(p, t, InSector());
      PlacedMeans(img, image, Held(), p, Delivered(ch.verify, ch.mem[..], ch.addr, ch.down, pos, t));
    }

    /** fdc_dma_handler: the whole rest of the transfer, then one result and the release of the channel. */
    method DmaHandler(ch: DmaChannel, pos: nat, len: nat) returns (n: nat, ghost moved: nat)
      requires Active() && bufPos == SECTOR && ch.mem != sectorBuf && pos <= len
      requires InMemory(ch.addr, ch.down, len, ch.mem.Length)
      requires if dmaWrite then Position() + RoundUp(len - pos) <= |image| else Position() <= |image|
      modifies this, sectorBuf, ch`dreq, ch.mem
      ensures n == len && Idle() && !ch.dreq && irqPending == old(irqPending) + 1
      ensures 0 <= old(Position()) && moved <= len - pos && old(Position()) + moved <= old(|image|)
      ensures Ended(old(dmaWrite) || moved == len - pos)
      ensures Position() == old(Position()) + if old(dmaWrite) then len - pos else moved
      ensures !old(dmaWrite) ==>
                && image == old(image) && (moved == len - pos || old(Position()) + moved + SECTOR > |image|)
                && Moved(old(ch.mem[..]), ch.mem[..], ch.addr, ch.down, pos,
                         if ch.verify then [] else image[old(Position())..old(Position()) + moved])
      ensures old(dmaWrite) ==>
                && ch.mem[..] == old(ch.mem[..]) && moved == (len - pos) / SECTOR * SECTOR
                && image == Splice(old(image), old(Position()),
                                   Delivered(ch.verify, ch.mem[..], ch.addr, ch.down, pos, len - pos)[..moved])
    {
      hide Active, Offset, InMemory, Delivered, Held, RoundUp, Position, Moved, Splice;
      var ok := true;
      ActiveMeans();
      if dmaWrite {
        WriteLoop(ch, pos, len);
        moved := (len - pos) / SECTOR * SECTOR;
      } else {
        var m;
        ok, m := ReadLoop(ch, pos, len);
        moved := m;
      }
      ActiveMeans();
      dmaActive := false;
      ch.dreq := false;
      if ok { FinishRw(if cur.head == 0 then 0 else 4, 0, cur); } else { FinishRw(0x40, 4, cur); }
      n := len;
    }

    /** The result phase: normal, or abnormal with no data found. */
    predicate Ended(normal: bool)
      reads this
    {
      && phase == Result
      && result == [if normal then (if cur.head == 0 then 0 else 4) else 0x40, if normal then 0 else 4, 0,
                    cur.cyl, cur.head, cur.sector, 2]
    }

    /** i8257_channel_run with this controller as the peripheral: a finished transfer is terminal count. */
    method ChannelRun(ch: DmaChannel) returns (ghost moved: nat)
      requires Active() && bufPos == SECTOR && ch.mem != sectorBuf && ch.nowCount <= ch.Length()
      requires InMemory(ch.addr, ch.down, ch.Length(), ch.mem.Length)
      requires if dmaWrite then Position() + RoundUp(ch.Length() - ch.nowCount) <= |image| else Position() <= |image|
      modifies this, sectorBuf, ch`dreq, ch`nowCount, ch`terminal, ch`masked, ch.mem
      ensures Idle() && !ch.dreq && ch.terminal && irqPending == old(irqPending) + 1
      ensures if ch.autoInit then ch.nowCount == 0 && ch.masked == old(ch.masked)
              else ch.nowCount == ch.Length() && ch.masked
      ensures 0 <= old(Position()) && moved <= ch.Length() - old(ch.nowCount) && old(Position()) + moved <= old(|image|)
      ensures Ended(old(dmaWrite) || moved == ch.Length() - old(ch.nowCount))
      ensures Position() == old(Position()) + if old(dmaWrite) then ch.Length() - old(ch.nowCount) else moved
      ensures !old(dmaWrite) ==>
                && image == old(image)
                && (moved == ch.Length() - old(ch.nowCount) || old(Position()) + moved + SECTOR > |image|)
                && Moved(old(ch.mem[..]), ch.mem[..], ch.addr, ch.down, old(ch.nowCount),
                         if ch.verify then [] else image[old(Position())..old(Position()) + moved])
      ensures old(dmaWrite) ==>
                var at := old(ch.nowCount);
                var data := Delivered(ch.verify, ch.mem[..], ch.addr, ch.down, at, ch.Length() - at);
                && ch.mem[..] == old(ch.mem[..]) && moved == |data| / SECTOR * SECTOR
                && image == Splice(old(image), old(Position()), data[..moved])
    {
      hide Active, Offset, InMemory, Delivered, Held, RoundUp, Position, Moved, Splice;
      var n, m := DmaHandler(ch, ch.nowCount, ch.Length());
      moved := m;
      ch.nowCount := n;
      if n == ch.Length() {
        ch.terminal := true;
        if ch.autoInit { ch.nowCount := 0; } else { ch.masked := true; }
      }
    }

    lemma ActiveMeans()
      requires Active()
      ensures dmaActive && 1 <= sects <= 254 && sectorBuf.Length == SECTOR && |image| <= 255 * 2 * sects * SECTOR
      ensures 0 <= Position()
    {
      hide Offset;
    }
  }

  function RoundUp(n: nat): (m: nat) { (n + SECTOR - 1) / SECTOR * SECTOR }

  lemma LessInMemory(addr: nat, down: bool, len: nat, more: nat, memory: nat)
    requires InMemory(addr, down, more, memory) && len <= more
    ensures InMemory(addr, down, len, memory)
  {
  }

  lemma TailKept(was: seq<byte>, now: seq<byte>, at: nat)
    requires |was| == |now| && at <= |was| && now[at..] == was[at..]
    ensures forall k :: at <= k < |was| ==> now[k] == was[k]
  {
    forall k | at <= k < |was| ensures now[k] == was[k] {
      assert now[k] == now[at..][k - at] && was[k] == was[at..][k - at];
    }
  }

  lemma HeldGrows(buf: seq<byte>, held: seq<byte>, at: nat, n: nat, x: seq<byte>)
    requires at + n <= |buf| && |held| == at && |x| == n
    requires buf[..at] == held && buf[at..at + n] == x
    ensures buf[..at + n] == held + x
  {
    assert buf[..at + n] == buf[..at] + buf[at..at + n];
  }

  lemma MovedFurther(m0: seq<byte>, m1: seq<byte>, m2: seq<byte>, addr: nat, down: bool, pos: nat, moved: nat,
                     verify: bool, image: seq<byte>, p: nat, chunk: nat)
    requires p + moved + chunk <= |image|
    requires Moved(m0, m1, addr, down, pos, if verify then [] else image[p..p + moved])
    requires Moved(m1, m2, addr, down, pos + moved, if verify then [] else image[p + moved..p + moved + chunk])
    ensures Moved(m0, m2, addr, down, pos, if verify then [] else image[p..p + moved + chunk])
  {
    if !verify {
      MovedJoin(m0, m1, m2, addr, down, pos, image[p..p + moved], image[p + moved..p + moved + chunk]);
      assert image[p..p + moved] + image[p + moved..p + moved + chunk] == image[p..p + moved + chunk];
    }
  }

  lemma RoundUpCovers(p: nat, t: nat, b: nat, total: nat)
    requires b <= t < total && p % SECTOR == 0 && (p + t) % SECTOR == b
    ensures t - b + SECTOR <= RoundUp(total)
  {
  }

  lemma SectorAhead(p: nat, t: nat, b: nat, total: nat, off: nat)
    requires b <= t < total && p % SECTOR == 0 && (p + t) % SECTOR == b
    requires off % SECTOR == 0 && off <= p + t < off + SECTOR
    ensures off == p + t - b && off + SECTOR <= p + RoundUp(total)
  {
    RoundUpCovers(p, t, b, total);
  }

  lemma WholeSectors(p: nat, t: nat, b: nat)
    requires p % SECTOR == 0 && (p + t) % SECTOR == b && b <= t
    ensures t - b == t / SECTOR * SECTOR
  {
  }

  /** All but the last `|held|` bytes of `data` are in the image at `p`, and those are held. */
  ghost predicate Placed(m0: seq<byte>, m: seq<byte>, held: seq<byte>, p: nat, data: seq<byte>) {
    && |held| <= |data| && p + |data| - |held| <= |m0|
    && m == Splice(m0, p, data[..|data| - |held|]) && held == data[|data| - |held|..]
  }

  lemma PlacedNothing(m: seq<byte>, held: seq<byte>, p: nat, data: seq<byte>)
    requires p <= |m| && |held| == 0 && |data| == 0
    ensures Placed(m, m, held, p, data)
  {
  }

  lemma PlacedLength(m0: seq<byte>, m: seq<byte>, held: seq<byte>, p: nat, data: seq<byte>)
    requires Placed(m0, m, held, p, data)
    ensures |held| <= |data| && |m| == |m0|
  {
  }

  lemma PlacedMeans(m0: seq<byte>, m: seq<byte>, held: seq<byte>, p: nat, data: seq<byte>)
    requires Placed(m0, m, held, p, data)
    ensures |held| <= |data| && p + |data| - |held| <= |m0|
    ensures m == Splice(m0, p, data[..|data| - |held|]) && held == data[|data| - |held|..]
  {
  }

  /** After one more delivery: either the buffer has grown, or it has gone to the image. */
  lemma PlacedStep(m0: seq<byte>, m1: seq<byte>, held: seq<byte>, p: nat, data: seq<byte>, more: seq<byte>,
                   m2: seq<byte>, held2: seq<byte>, off: nat)
    requires Placed(m0, m1, held, p, data) && off == p + |data| - |held| && off + SECTOR <= |m0|
    requires |held| + |more| <= SECTOR
    requires if |held| + |more| < SECTOR then held2 == held + more && m2 == m1
             else held2 == [] && m2 == Splice(m1, off, held + more)
    ensures Placed(m0, m2, held2, p, data + more)
  {
    hide Splice;
    var whole := |data| - |held|;
    DataSplits(data, held, more);
    if |held| + |more| == SECTOR {
      SpliceJoin(m0, p, data[..whole], held + more);
    }
  }

  lemma DataSplits(data: seq<byte>, held: seq<byte>, more: seq<byte>)
    requires |held| <= |data| && held == data[|data| - |held|..]
    ensures var all, whole := data + more, |data| - |held|;
            && all[..whole] == data[..whole] && all[whole..] == held + more
            && data[..whole] + (held + more) == all == all[..|all|] && all[|all|..] == []
  {
  }
}
