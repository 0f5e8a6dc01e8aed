/**
 The PIO data path of an IDE hard disk: commands, multi-sector batches and word,
 double-word and string access to the data port.

 The reference is a Channel: so many bytes left in the current batch, so many
 left in the command.  An access that does not fit the batch moves nothing; all
 others move the next bytes of one slice of the image, whatever the batching.
 */
module IdePio {
  import opened Arith
  import opened GuestMemory
  import opened IdeAddress

  const SECTOR: nat := 512
  const MAX_MULT_SECTORS: nat := 4

  datatype Stat = Ready | Seek | Drq | Err

  /** The end-of-batch callback. */
  datatype Continuation = Stop | ReadNext | WriteFlush

  datatype Command = SetMult | Read | Write | MultRead | MultWrite

  function Min(a: nat, b: nat): (m: nat) { if a <= b then a else b }

  /** ---- The reference ---- */

  datatype Channel = Channel(left: nat, total: nat, batch: nat)

  predicate Open(c: Channel) {
    c.batch > 0 && c.left <= c.total && (c.left == 0 <==> c.total == 0)
  }

  /** `k` bytes moved; an exhausted batch is followed by the next one. */
  function Take(c: Channel, k: nat): (d: Channel)
    requires Open(c) && k <= c.left
    ensures Open(d) && d.total == c.total - k
  {
    if k < c.left then Channel(c.left - k, c.total - k, c.batch)
    else Channel(Min(c.total - k, SECTOR * c.batch), c.total - k, c.batch)
  }

  /** A command's channel before anything has moved. */
  function Fresh(sectors: nat, batch: nat): (c: Channel)
    requires sectors > 0 && batch > 0
    ensures Open(c)
  {
    Channel(Min(SECTOR * sectors, SECTOR * batch), SECTOR * sectors, batch)
  }

  /** The single-sector commands set the multiple count to 1. */
  function BatchOf(c: Command, multiple: nat): (batch: nat) {
    if c == Read || c == Write then 1 else multiple
  }

  /** One access to the data port; only the string form names guest memory. */
  datatype Access = Word(value: nat) | Dword(value: nat) | Block(size: nat, addr: nat, count: nat)

  predicate InMemory(a: Access, memory: nat) {
    a.Block? ==> a.size > 0 && a.addr + a.size * a.count <= memory
  }

  function Width(a: Access): (w: nat) {
    match a
    case Word(_) => 2
    case Dword(_) => 4
    case Block(size, _, count) => size * count
  }

  /** `len` less what is not a whole element. */
  function Whole(len: nat, size: nat): (w: nat)
    requires size > 0
    ensures w <= len
  {
    len - len % size
  }

  lemma WholeMeans(len: nat, size: nat)
    requires size > 0
    ensures Whole(len, size) / size * size == Whole(len, size)
  {
    DivModUnique(len - len % size, size, len / size, 0);
  }

  /** How many bytes an access moves: all or nothing for a word, whole elements for a string. */
  function Granted(c: Channel, a: Access): (k: nat)
    requires a.Block? ==> a.size > 0
    ensures k <= c.left && k <= Width(a)
  {
    match a
    case Word(_) => if c.left < 2 then 0 else 2
    case Dword(_) => if c.left < 4 then 0 else 4
    case Block(size, _, count) => Whole(Min(size * count, c.left), size)
  }

  /** The largest number of elements within the count asked for and the room left. */
  predicate Largest(n: nat, size: nat, count: nat, room: nat)
  {
    n <= count && n * size <= room && (n == count || (n + 1) * size > room)
  }

  /** The whole elements of a string access are as many as there is room for. */
  lemma TrimLargest(size: nat, count: nat, room: nat)
    requires size > 0
    ensures Largest(Whole(Min(size * count, room), size) / size, size, count, room)
  {
    var len := Min(size * count, room);
    var n, r := len / size, len % size;
    assert len == n * size + r;
    DivModUnique(len - r, size, n, 0);
    MulDistrib(n, 1, size);
    if size * count <= room {
      assert len == count * size + 0;
      DivModUnique(len, size, count, 0);
    } else if n >= count {
      MulDistrib(n - count, count, size);
      MulNonNeg(n - count, size);
    }
  }

  /** The bytes a writing access offers. */
  function Offered(a: Access, mem: seq<byte>): (bs: seq<byte>)
    requires InMemory(a, |mem|)
    ensures |bs| == Width(a)
  {
    match a
    case Word(v) => ToBytes(v, 2)
    case Dword(v) => ToBytes(v, 4)
    case Block(size, addr, count) => mem[addr..addr + size * count]
  }

  predicate AllInMemory(accesses: seq<Access>, memory: nat) {
    forall i :: 0 <= i < |accesses| ==> InMemory(accesses[i], memory)
  }

  /** The bytes a run of writing accesses gets through. */
  function Accepted(c: Channel, accesses: seq<Access>, mem: seq<byte>): (bs: seq<byte>)
    requires Open(c) && AllInMemory(accesses, |mem|)
    ensures |bs| == Moved(c, accesses, |mem|) <= c.total
    decreases |accesses|
  {
    if accesses == [] then [] else
      var k := Granted(c, accesses[0]);
      Offered(accesses[0], mem)[..k] + Accepted(Take(c, k), accesses[1..], mem)
  }

  function Moved(c: Channel, accesses: seq<Access>, memory: nat): (n: nat)
    requires Open(c) && AllInMemory(accesses, memory)
    ensures n <= c.total
    decreases |accesses|
  {
    if accesses == [] then 0 else
      var k := Granted(c, accesses[0]);
      k + Moved(Take(c, k), accesses[1..], memory)
  }

  /** Each access fits what is left of its batch, and string elements do not straddle it. */
  predicate AllFit(c: Channel, accesses: seq<Access>, memory: nat)
    requires Open(c) && AllInMemory(accesses, memory)
    decreases |accesses|
  {
    accesses == [] || (
      && Width(accesses[0]) <= c.left
      && AllFit(Take(c, Granted(c, accesses[0])), accesses[1..], memory))
  }

  function AllOffered(accesses: seq<Access>, mem: seq<byte>): (bs: seq<byte>)
    requires AllInMemory(accesses, |mem|)
  {
    if accesses == [] then [] else Offered(accesses[0], mem) + AllOffered(accesses[1..], mem)
  }

  lemma FitsWhole(c: Channel, a: Access)
    requires (a.Block? ==> a.size > 0) && Width(a) <= c.left
    ensures Granted(c, a) == Width(a)
  {
    if a.Block? {
      assert a.size * a.count == a.count * a.size;
      DivModUnique(a.size * a.count, a.size, a.count, 0);
    }
  }

  /** Accesses that fit lose nothing, however the batches fall. */
  lemma {:induction false} FittingLoseNothing(c: Channel, accesses: seq<Access>, mem: seq<byte>)
    requires Open(c) && AllInMemory(accesses, |mem|) && AllFit(c, accesses, |mem|)
    ensures Accepted(c, accesses, mem) == AllOffered(accesses, mem)
    ensures Moved(c, accesses, |mem|) == |AllOffered(accesses, mem)|
    decreases |accesses|
  {
    if accesses != [] {
      FitsWhole(c, accesses[0]);
      FittingLoseNothing(Take(c, Width(accesses[0])), accesses[1..], mem);
    }
  }

  /** ---- The drive ---- */

  class IdeDrive {
    const geom: Geometry
    const startOffset: nat
    var regs: Regs
    var nsector: nat
    var multSectors: nat
    var status: set<Stat>
    var aborted: bool              // ABRT_ERR in the error register
    var xferLeft: nat
    var xferSectors: nat
    var xferIsWrite: bool
    var xferDone: Continuation
    var image: seq<byte>           // the image file
    var pos: nat                   // its file position
    ghost var stop: nat            // where the command will end

    constructor (geom: Geometry, startOffset: nat, image: seq<byte>)
      requires ValidGeometry(geom)
      ensures Valid() && !Active() && this.geom == geom && this.startOffset == startOffset && this.image == image
      ensures multSectors == MAX_MULT_SECTORS && nsector == 0 && regs == Regs(0xa0, 0, 0, 0)
    {
      this.geom, this.startOffset, this.image := geom, startOffset, image;
      regs, nsector, multSectors := Regs(0xa0, 0, 0, 0), 0, MAX_MULT_SECTORS;
      status, aborted := {Ready, Seek}, false;
      xferLeft, xferSectors, xferIsWrite, xferDone := 0, 0, false, Stop;
      pos, stop := 0, 0;
    }

    predicate Active()
      reads this
    {
      xferDone != Stop
    }

    function Lba(): int
      reads this
    {
      GetSector(regs, geom)
    }

    /** The count register: 0 means 256. */
    function Sectors(): (n: nat)
      reads this
      ensures n > 0
    {
      if nsector == 0 then 256 else nsector
    }

    function Batch(): (n: nat)
      reads this
      ensures n > 0
    {
      if multSectors == 0 then 1 else multSectors
    }

    /** The addressed range can be named by the registers and lies inside the image. */
    predicate InRange()
      reads this
    {
      && 0 <= Lba() && Lba() + Sectors() <= Capacity(regs, geom)
      && startOffset + SECTOR * (Lba() + Sectors()) <= |image|
    }

    ghost predicate Registers()
      reads this
    {
      ValidGeometry(geom) && ValidRegs(regs) && nsector < 256 && multSectors in {0, 1, 2, 4} && pos <= stop <= |image|
    }

    /** The registers, the batch and the file position agree, once `k` moved bytes are accounted for. */
    ghost predicate InStep(k: nat)
      reads this
    {
      && InRange()
      && xferSectors <= Sectors()
      && k <= xferLeft <= SECTOR * xferSectors
      && pos + xferLeft - k == startOffset + SECTOR * (Lba() + xferSectors)
      && stop == startOffset + SECTOR * (Lba() + Sectors())
    }

    ghost predicate Valid()
      reads this
    {
      && Registers()
      && (!Active() ==> xferLeft == 0 && !xferIsWrite && Drq !in status && stop == pos)
      && (Active() ==> InStep(0) && xferLeft > 0 && (xferIsWrite <==> xferDone == WriteFlush))
    }

    ghost function View(): (c: Channel)
      requires Valid()
      reads this
      ensures Open(c)
    {
      Channel(xferLeft, stop - pos, Batch())
    }

    /** ide_transfer_stop. */
    method TransferStop()
      modifies `xferLeft, `xferIsWrite, `xferDone, `status
      ensures xferLeft == 0 && !xferIsWrite && xferDone == Stop && status == old(status) - {Drq}
    {
      xferLeft, xferIsWrite, xferDone := 0, false, Stop;
      status := status - {Drq};
    }

    /** The batch size: what is left of the command, at most the multiple count. */
    method Arm(done: Continuation)
      requires Registers() && InRange()
      requires pos == startOffset + SECTOR * Lba() && stop == startOffset + SECTOR * (Lba() + Sectors())
      requires done != Stop
      modifies `xferLeft, `xferSectors, `xferIsWrite, `xferDone, `status
      ensures Valid() && xferDone == done && status == {Ready, Seek, Drq}
      ensures View() == Channel(Min(stop - pos, SECTOR * Batch()), stop - pos, Batch())
    {
      hide GetSector, Capacity, ValidRegs, ValidGeometry;
      var n := if nsector != 0 then nsector else 256;
      var max := if multSectors != 0 then multSectors else 1;
      if n > max { n := max; }
      xferSectors, xferLeft := n, n * SECTOR;
      xferIsWrite, xferDone := done == WriteFlush, done;
      status := {Ready, Seek, Drq};
    }

    /** ide_sector_read and ide_sector_write: seek to the addressed sector and arm the first batch. */
    method SectorStart(done: Continuation)
      requires ValidGeometry(geom) && ValidRegs(regs) && nsector < 256 && multSectors in {0, 1, 2, 4}
      requires InRange() && done != Stop
      modifies `xferLeft, `xferSectors, `xferIsWrite, `xferDone, `status, `pos, `stop
      ensures Valid() && xferDone == done && status == {Ready, Seek, Drq}
      ensures pos == startOffset + SECTOR * Lba() && stop == startOffset + SECTOR * (Lba() + Sectors())
      ensures View() == Fresh(Sectors(), Batch())
      ensures stop - pos == 512 * (if nsector == 0 then 256 else nsector)
      ensures xferLeft == Min(stop - pos, 512 * (if multSectors == 0 then 1 else multSectors))
    {
      hide GetSector, Capacity, ValidRegs, ValidGeometry;
      pos := startOffset + SECTOR * Lba();
      stop := startOffset + SECTOR * (Lba() + Sectors());
      Arm(done);
    }

    /** The registers stepped past a finished batch; false when the command is finished. */
    method Step() returns (more: bool)
      requires Registers() && InStep(xferLeft) && xferSectors > 0
      modifies `regs, `nsector
      ensures Registers() && nsector == (old(nsector) - xferSectors) % 256
      ensures old(Lba()) + xferSectors < old(Capacity(regs, geom)) ==> Lba() == old(Lba()) + xferSectors
      ensures more == (stop != pos)
      ensures more ==> InRange() && pos == startOffset + SECTOR * Lba()
      ensures more ==> stop == startOffset + SECTOR * (Lba() + Sectors())
    {
      hide GetSector, SetSector, Capacity, ValidGeometry, ValidRegs, Names;
      var n := xferSectors;
      var next: nat := Lba() + n;
      ghost var was := regs;
      SetSectorValid(regs, geom, next);
      if next < Capacity(regs, geom) { SectorRoundTrip(regs, geom, next); }
      regs := SetSector(regs, geom, next);
      StillNames(was, regs, geom, next);
      var left: int := nsector - n;
      DivModUnique(left, 256, if left < 0 then -1 else 0, if left < 0 then left + 256 else left);
      nsector := left % 256;
      more := nsector != 0;
    }

    /** ide_sector_read_next and ide_sector_write_flush. */
    method BatchDone(done: Continuation)
      requires Registers() && InStep(xferLeft) && xferSectors > 0 && done != Stop
      modifies `regs, `nsector, `xferLeft, `xferSectors, `xferIsWrite, `xferDone, `status, `pos, `stop
      ensures Valid() && pos == old(pos) && stop == old(stop)
      ensures Active() == (stop != pos) && (Active() ==> xferDone == done)
      ensures View() == Channel(Min(stop - pos, SECTOR * Batch()), stop - pos, Batch())
      ensures status == if Active() then {Ready, Seek, Drq} else {Ready, Seek}
      ensures nsector == (old(nsector) - old(xferSectors)) % 256
      ensures old(Lba() + xferSectors < Capacity(regs, geom)) ==> Lba() == old(Lba() + xferSectors)
    {
      hide GetSector, SetSector, Capacity, ValidGeometry, ValidRegs;
      var more := Step();
      if !more {
        status := {Ready, Seek};
        TransferStop();
      } else if done == ReadNext {
        SectorStart(ReadNext);
      } else {
        Arm(WriteFlush);
      }
    }

    /** What an access that has moved `k` bytes did to the transfer. */
    twostate predicate Progress(k: nat)
      requires old(Valid())
      reads this
    {
      && Valid() && k <= old(xferLeft)
      && pos == old(pos) + k && stop == old(stop)
      && View() == Take(old(View()), k)
      && (Active() ==> xferDone == old(xferDone) && (Drq in old(status) ==> Drq in status))
      && (!Active() ==> status == if old(Active()) then {Ready, Seek} else old(status))
      && multSectors == old(multSectors)
    }

    /** A transfer under way whose last `k` bytes have moved but are not yet accounted for. */
    ghost predicate Moving(k: nat)
      reads this
    {
      Registers() && InStep(k) && xferLeft > 0 && Active() && (xferIsWrite <==> xferDone == WriteFlush)
    }

    twostate lemma BytesMoved(k: nat)
      requires old(Valid()) && old(Active()) && k <= old(xferLeft)
      requires pos == old(pos) + k && |image| == old(|image|)
      requires unchanged(`regs, `nsector, `multSectors, `xferLeft, `xferSectors, `xferIsWrite, `xferDone, `stop)
      ensures Moving(k) && |image| >= pos
    {
      hide GetSector, SetSector, Capacity, ValidGeometry, ValidRegs;
    }

    twostate lemma NoBytesMoved()
      requires old(Valid()) && unchanged(this)
      ensures Progress(0)
    {
    }

    /** Stopping what is already stopped changes nothing. */
    twostate lemma StoppedIdle()
      requires old(Valid()) && !old(Active())
      requires unchanged(`regs, `nsector, `multSectors, `xferSectors, `stop, `pos, `image)
      requires xferLeft == 0 && !xferIsWrite && xferDone == Stop && status == old(status) - {Drq}
      ensures Progress(0)
    {
      hide GetSector, SetSector, Capacity, ValidGeometry, ValidRegs;
    }

    lemma RoomLeft(k: nat)
      requires Valid() && k <= xferLeft
      ensures pos + k <= |image| && (k > 0 ==> Active())
      ensures xferIsWrite ==> Active() && xferDone == WriteFlush
      ensures Active() && !xferIsWrite ==> xferDone == ReadNext
    {
    }

    /** xfer_advance. */
    method XferAdvance(n: nat)
      requires Moving(n)
      modifies `regs, `nsector, `xferLeft, `xferSectors, `xferIsWrite, `xferDone, `status, `pos, `stop
      ensures Valid() && pos == old(pos) && stop == old(stop)
      ensures View() == Take(old(Channel(xferLeft, stop - pos + n, Batch())), n)
      ensures Active() == (stop != pos) && (Active() ==> xferDone == old(xferDone))
      ensures !Active() ==> status == {Ready, Seek}
      ensures Active() && Drq in old(status) ==> Drq in status
    {
      hide GetSector, SetSector, Capacity, ValidGeometry, ValidRegs;
      var left: int := xferLeft - n;
      xferLeft := left;
      if left <= 0 {
        var done := xferDone;
        TransferStop();
        if done != Stop { BatchDone(done); }
      }
    }

    /** f_write at the file position. */
    method Put(bs: seq<byte>)
      requires pos + |bs| <= |image|
      modifies `image, `pos
      ensures image == Splice(old(image), old(pos), bs) && pos == old(pos) + |bs|
    {
      image := Splice(image, pos, bs);
      pos := pos + |bs|;
    }

    /** f_read at the file position. */
    method Get(n: nat) returns (bs: seq<byte>)
      requires pos + n <= |image|
      modifies `pos
      ensures bs == image[old(pos)..old(pos) + n] && pos == old(pos) + n
    {
      bs := image[pos..pos + n];
      pos := pos + n;
    }

    /** ide_data_writew and ide_data_writel. */
    method WriteData(a: Access)
      requires Valid() && !a.Block?
      modifies this
      ensures var k := if old(xferIsWrite) then Granted(old(View()), a) else 0;
              Progress(k) && image == Splice(old(image), old(pos), Offered(a, [])[..k])
    {
      hide GetSector, SetSector, Capacity, ValidGeometry, ValidRegs, ToBytes;
      if xferLeft < Width(a) || !xferIsWrite { return; }
      Put(ToBytes(a.value, Width(a)));
      XferAdvance(Width(a));
    }

    /** ide_data_readw and ide_data_readl. */
    method ReadData(a: Access) returns (v: nat)
      requires Valid() && !a.Block?
      modifies this
      ensures var k := if old(xferIsWrite) then 0 else Granted(old(View()), a);
              Progress(k) && image == old(image) && v == if k == 0 then 0 else FromBytes(old(image[pos..pos + k]))
    {
      hide GetSector, SetSector, Capacity, ValidGeometry, ValidRegs, FromBytes;
      if xferLeft < Width(a) || xferIsWrite { return 0; }
      var buf := Get(Width(a));
      v := FromBytes(buf);
      XferAdvance(Width(a));
    }

    /** The loop of a writing string access: 512 bytes at a time. */
    method PutFrom(mem: array<byte>, addr: nat, len: nat)
      requires pos + len <= |image| && addr + len <= mem.Length
      modifies `image, `pos
      ensures image == Splice(old(image), old(pos), mem[addr..addr + len]) && pos == old(pos) + len
    {
      var i := 0;
      while i < len
        invariant 0 <= i <= len
        invariant pos == old(pos) + i && image == Splice(old(image), old(pos), mem[addr..addr + i])
      {
        var l := len - i;
        if l > 512 { l := 512; }
        var buf := mem[addr + i..addr + i + l];
        SpliceJoin(old(image), old(pos), mem[addr..addr + i], buf);
        assert mem[addr..addr + i] + buf == mem[addr..addr + i + l];
        Put(buf);
        i := i + l;
      }
    }

    /** The loop of a reading string access. */
    method GetTo(mem: array<byte>, addr: nat, len: nat)
      requires pos + len <= |image| && addr + len <= mem.Length
      modifies `pos, mem
      ensures mem[..] == Splice(old(mem[..]), addr, image[old(pos)..old(pos) + len]) && pos == old(pos) + len
    {
      hide Splice;
      var i := 0;
      while i < len
        invariant 0 <= i <= len
        invariant pos == old(pos) + i && mem[..] == Splice(old(mem[..]), addr, image[old(pos)..old(pos) + i])
      {
        var l := len - i;
        if l > 512 { l := 512; }
        var buf := Get(l);
        SpliceJoin(old(mem[..]), addr, image[old(pos)..old(pos) + i], buf);
        SliceJoin(image, old(pos), i, l);
        WriteBytes(mem, addr + i, buf);
        i := i + l;
      }
    }

    /** The length of a string access. */
    method Trim(a: Access) returns (len: nat)
      requires Valid() && a.Block? && a.size > 0
      ensures len == Granted(View(), a) && len / a.size * a.size == len
      ensures Largest(len / a.size, a.size, a.count, xferLeft)
    {
      hide Valid, Whole, Largest;
      TrimLargest(a.size, a.count, xferLeft);
      len := a.size * a.count;
      if len > xferLeft { len := xferLeft; }
      WholeMeans(len, a.size);
      len := Whole(len, a.size);
    }

    /** ide_data_write_string. */
    method WriteString(mem: array<byte>, a: Access) returns (n: nat)
      requires Valid() && a.Block? && InMemory(a, mem.Length)
      modifies this
      ensures var k := if old(xferIsWrite) then Granted(old(View()), a) else 0;
              Progress(k) && n * a.size == k && image == Splice(old(image), old(pos), Offered(a, mem[..])[..k])
      ensures if old(xferIsWrite) then
                n <= a.count && n * a.size <= old(xferLeft) && (n == a.count || (n + 1) * a.size > old(xferLeft))
              else n == 0
    {
      hide Valid, Moving, Granted, Take, Splice, Whole;
      if !xferIsWrite { NoBytesMoved(); return 0; }
      var len := Trim(a);
      RoomLeft(len);
      PutFrom(mem, a.addr, len);
      BytesMoved(len);
      XferAdvance(len);
      n := len / a.size;
    }

    /** ide_data_read_string. */
    method ReadString(mem: array<byte>, a: Access) returns (n: nat)
      requires Valid() && a.Block? && InMemory(a, mem.Length)
      modifies this, mem
      ensures var k := if old(xferIsWrite) then 0 else Granted(old(View()), a);
              && Progress(k) && n * a.size == k && image == old(image)
              && mem[..] == Splice(old(mem[..]), a.addr, old(image[pos..pos + k]))
      ensures if old(xferIsWrite) then n == 0
              else n <= a.count && n * a.size <= old(xferLeft) && (n == a.count || (n + 1) * a.size > old(xferLeft))
    {
      hide Valid, Moving, Granted, Take, Splice, Whole;
      RoomLeft(0);
      SpliceNothing(mem[..], a.addr, image[pos..pos]);
      if xferIsWrite { NoBytesMoved(); return 0; }
      var len := Trim(a);
      RoomLeft(len);
      if xferDone == ReadNext {
        GetTo(mem, a.addr, len);
        BytesMoved(len);
        XferAdvance(len);
      } else {
        TransferStop();
        StoppedIdle();
      }
      n := len / a.size;
    }

    /** A transfer of the addressed range is armed and nothing has moved yet. */
    ghost predicate Started(write: bool)
      requires Valid()
      reads this
    {
      && InRange() && pos == startOffset + SECTOR * Lba()
      && View() == Fresh(Sectors(), Batch())
      && Active() && xferIsWrite == write && status == {Ready, Seek, Drq}
    }

    /** A transfer under way has not been touched. */
    twostate predicate SameTransfer()
      reads this
    {
      unchanged(`pos, `stop, `xferDone, `xferLeft, `xferSectors, `xferIsWrite)
    }

    /** ide_exec_cmd for the PIO transfer commands and SET MULTIPLE. */
    method ExecCommand(c: Command)
      requires Valid() && (c != SetMult ==> InRange())
      modifies this
      ensures Valid() && image == old(image) && regs == old(regs) && nsector == old(nsector)
      ensures c == SetMult ==>
                && multSectors == (if nsector in {0, 1, 2, 4} then nsector else old(multSectors))
                && aborted == (old(aborted) || nsector !in {0, 1, 2, 4})
                && status == {Ready} && SameTransfer()
      ensures c == Read || c == Write ==> multSectors == 1 && Started(c == Write)
      ensures (c == MultRead || c == MultWrite) && old(multSectors) != 0 ==>
                multSectors == old(multSectors) && Started(c == MultWrite)
      ensures (c == MultRead || c == MultWrite) && old(multSectors) == 0 ==>
                aborted && status == {Ready, Err} && SameTransfer()
    {
      hide GetSector, SetSector, Capacity, ValidGeometry, ValidRegs;
      match c
      case SetMult =>
        PowersOfTwo(nsector);
        if nsector > MAX_MULT_SECTORS || (nsector as bv16) & (nsector as bv16 - 1) != 0 {
          aborted := true;
        } else {
          multSectors := nsector;
        }
        status := {Ready};
      case Read =>
        multSectors := 1;
        SectorStart(ReadNext);
      case Write =>
        multSectors := 1;
        SectorStart(WriteFlush);
      case MultRead => StartMultiple(ReadNext);
      case MultWrite => StartMultiple(WriteFlush);
    }

    /** READ MULTIPLE and WRITE MULTIPLE, refused while multiple mode is off. */
    method StartMultiple(done: Continuation)
      requires Valid() && InRange() && done != Stop
      modifies this
      ensures Valid() && unchanged(`image, `regs, `nsector, `multSectors)
      ensures if multSectors == 0 then
                aborted && status == {Ready, Err} && SameTransfer()
              else Started(done == WriteFlush)
    {
      hide GetSector, SetSector, Capacity, ValidGeometry, ValidRegs;
      if multSectors == 0 { status, aborted := {Ready, Err}, true; } else { SectorStart(done); }
    }

    /** ide_ioport_write for the count and address registers, between transfers. */
    method WriteRegister(port: nat, val: byte)
      requires Valid() && !Active() && 2 <= port <= 6
      modifies `regs, `nsector
      ensures Valid() && !Active()
      ensures nsector == if port == 2 then val else old(nsector)
      ensures regs == match port
                case 2 => old(regs)
                case 3 => old(regs).(sector := val)
                case 4 => old(regs).(lcyl := val)
                case 5 => old(regs).(hcyl := val)
                case _ => old(regs).(select := Or(val, 0xa0) % 256)
    {
      match port
      case 2 => nsector := val;
      case 3 => regs := regs.(sector := val);
      case 4 => regs := regs.(lcyl := val);
      case 5 => regs := regs.(hcyl := val);
      case _ => regs := regs.(select := Or(val, 0xa0) % 256);
    }

    /** One writing access, of any width. */
    method WriteAccess(mem: array<byte>, a: Access)
      requires Valid() && (xferIsWrite || !Active()) && InMemory(a, mem.Length)
      modifies this
      ensures Progress(Granted(old(View()), a))
      ensures image == Splice(old(image), old(pos), Offered(a, mem[..])[..Granted(old(View()), a)])
      ensures xferIsWrite || !Active()
    {
      hide Valid, Granted, Take, Splice;
      NothingGranted(a);
      RoomLeft(0);
      if a.Block? { var _ := WriteString(mem, a); } else { WriteData(a); }
      RoomLeft(0);
    }

    /** Any run of writing accesses puts what it gets through at the file position, and nothing else. */
    method RunWrites(mem: array<byte>, accesses: seq<Access>)
      requires Valid() && (xferIsWrite || !Active()) && AllInMemory(accesses, mem.Length)
      modifies this
      ensures Valid() && (xferIsWrite || !Active()) && stop == old(stop) && Active() == (pos != stop)
      ensures multSectors == old(multSectors)
      ensures !Active() ==> status == if old(Active()) then {Ready, Seek} else old(status)
      ensures var bs := Accepted(old(View()), accesses, mem[..]);
              image == Splice(old(image), old(pos), bs) && pos == old(pos) + |bs|
      decreases |accesses|
    {
      hide Valid, Granted, Take, Splice, Offered, Open, View, AllInMemory, InMemory;
      IdleWhenDone();
      if accesses == [] {
        SpliceNothing(image, pos, []);
        return;
      }
      HeadInMemory(accesses, mem.Length);
      ghost var part := Offered(accesses[0], mem[..])[..Granted(View(), accesses[0])];
      AcceptStep(View(), accesses, mem[..]);
      WriteAccess(mem, accesses[0]);
      IdleWhenDone();
      SpliceJoin(old(image), old(pos), part, Accepted(View(), accesses[1..], mem[..]));
      RunWrites(mem, accesses[1..]);
    }

    /** One reading access; a string goes to guest memory and is taken from there. */
    method ReadAccess(mem: array<byte>, a: Access) returns (got: seq<byte>)
      requires Valid() && !xferIsWrite && InMemory(a, mem.Length)
      modifies this, mem
      ensures Progress(Granted(old(View()), a)) && image == old(image) && !xferIsWrite
      ensures got == old(image[pos..pos + Granted(View(), a)])
    {
      hide Valid, Granted, Take, Splice, FromBytes, ToBytes;
      RoomLeft(Granted(View(), a));
      RoomLeft(0);
      if a.Block? {
        var n := ReadString(mem, a);
        got := mem[a.addr..a.addr + n * a.size];
      } else {
        WordGranted(View(), a);
        var fits := xferLeft >= Width(a);
        var v := ReadData(a);
        if fits { ToFromBytes(old(image[pos..pos + Width(a)])); }
        got := if fits then ToBytes(v, Width(a)) else [];
      }
      RoomLeft(0);
    }

    /** Any run of reading accesses delivers the next bytes of the image, and leaves the image alone. */
    method RunReads(mem: array<byte>, accesses: seq<Access>) returns (got: seq<byte>)
      requires Valid() && !xferIsWrite && AllInMemory(accesses, mem.Length)
      modifies this, mem
      ensures Valid() && !xferIsWrite && stop == old(stop) && Active() == (pos != stop) && image == old(image)
      ensures multSectors == old(multSectors)
      ensures !Active() ==> status == if old(Active()) then {Ready, Seek} else old(status)
      ensures |got| == Moved(old(View()), accesses, mem.Length) && pos == old(pos) + |got| <= |image|
      ensures got == old(image[pos..pos + |got|])
      decreases |accesses|
    {
      hide Valid, Granted, Take, Offered, Open, View, AllInMemory, InMemory;
      IdleWhenDone();
      if accesses == [] { return []; }
      HeadInMemory(accesses, mem.Length);
      MoveStep(View(), accesses, mem.Length);
      got := ReadAccess(mem, accesses[0]);
      IdleWhenDone();
      var more := RunReads(mem, accesses[1..]);
      SliceJoin(image, old(pos), |got|, |more|);
      got := got + more;
    }

    /** A whole write command: the bytes offered become the addressed slice of the image. */
    method WriteSectors(mem: array<byte>, c: Command, puts: seq<Access>)
      requires Valid() && InRange() && AllInMemory(puts, mem.Length)
      requires c == Write || (c == MultWrite && multSectors != 0)
      requires AllFit(Fresh(Sectors(), BatchOf(c, multSectors)), puts, mem.Length)
      requires |AllOffered(puts, mem[..])| == SECTOR * Sectors()
      modifies this
      ensures Valid() && !Active() && status == {Ready, Seek} && multSectors == BatchOf(c, old(multSectors))
      ensures image == Splice(old(image), startOffset + SECTOR * old(Lba()), AllOffered(puts, mem[..]))
    {
      hide Valid, Granted, Take, Offered, Open, AllInMemory, InMemory, Moved, Accepted, AllOffered, AllFit, Splice;
      FittingLoseNothing(Fresh(Sectors(), BatchOf(c, multSectors)), puts, mem[..]);
      ExecCommand(c);
      IdleWhenDone();
      RunWrites(mem, puts);
    }

    /** A whole read command delivers the addressed slice. */
    method ReadSectors(mem: array<byte>, c: Command, gets: seq<Access>) returns (got: seq<byte>)
      requires Valid() && InRange() && AllInMemory(gets, mem.Length)
      requires c == Read || (c == MultRead && multSectors != 0)
      requires Moved(Fresh(Sectors(), BatchOf(c, multSectors)), gets, mem.Length) == SECTOR * Sectors()
      modifies this, mem
      ensures Valid() && !Active() && status == {Ready, Seek} && image == old(image)
      ensures var start := startOffset + SECTOR * old(Lba());
              got == image[start..start + SECTOR * old(Sectors())]
      ensures |got| == 512 * (if old(nsector) == 0 then 256 else old(nsector))
    {
      hide Valid, Granted, Take, Offered, Open, AllInMemory, InMemory, Moved;
      ExecCommand(c);
      IdleWhenDone();
      got := RunReads(mem, gets);
    }

    /**
     Write N sectors and read them back: `back` may name them the other way, the
     batch sizes and the mix of accesses may differ.  The same bytes return, the
     rest of the image is as it was, and both commands end ready.
     */
    method WriteThenRead(mem: array<byte>, write: Command, puts: seq<Access>,
                         back: Regs, read: Command, gets: seq<Access>)
      returns (got: seq<byte>)
      requires Valid() && InRange() && AllInMemory(puts, mem.Length) && AllInMemory(gets, mem.Length)
      requires write == Write || (write == MultWrite && multSectors != 0)
      requires read == Read || (read == MultRead && multSectors != 0)
      requires AllFit(Fresh(Sectors(), BatchOf(write, multSectors)), puts, mem.Length)
      requires |AllOffered(puts, mem[..])| == SECTOR * Sectors()
      requires Moved(Fresh(Sectors(), BatchOf(read, BatchOf(write, multSectors))), gets, mem.Length) ==
                 SECTOR * Sectors()
      requires ValidRegs(back) && GetSector(back, geom) == Lba() && Lba() + Sectors() <= Capacity(back, geom)
      modifies this, mem
      ensures Valid() && !Active() && status == {Ready, Seek}
      ensures got == AllOffered(puts, old(mem[..]))
      ensures image == Splice(old(image), startOffset + SECTOR * old(Lba()), got)
    {
      hide Granted, Take, Offered, Open, AllInMemory, InMemory, Moved, Accepted, AllOffered, AllFit, Splice,
        GetSector, Capacity, ValidRegs, ValidGeometry;
      ghost var data, start := AllOffered(puts, mem[..]), startOffset + SECTOR * Lba();
      var count := nsector;
      WriteSectors(mem, write, puts);
      regs, nsector := back, count;
      got := ReadSectors(mem, read, gets);
      SpliceShows(old(image), start, data);
    }

    lemma IdleWhenDone()
      requires Valid()
      ensures Active() == (pos != stop) && pos <= stop <= |image| && (xferIsWrite ==> Active())
      ensures View().total == stop - pos
    {
      hide GetSector, SetSector, Capacity, ValidGeometry, ValidRegs;
    }

    lemma NothingGranted(a: Access)
      requires Valid() && (a.Block? ==> a.size > 0)
      ensures !Active() ==> Granted(View(), a) == 0
    {
    }
  }

  lemma PowersOfTwo(n: nat)
    requires n < 256
    ensures n > 4 || (n as bv16) & (n as bv16 - 1) != 0 <==> n !in {0, 1, 2, 4}
  {
    if n == 3 { assert (n as bv16) & (n as bv16 - 1) == 2; }
  }

  lemma HeadInMemory(accesses: seq<Access>, memory: nat)
    requires AllInMemory(accesses, memory) && accesses != []
    ensures InMemory(accesses[0], memory) && AllInMemory(accesses[1..], memory)
    ensures accesses[0].Block? ==> accesses[0].size > 0
  {
    assert InMemory(accesses[0], memory);
  }

  lemma AcceptStep(c: Channel, accesses: seq<Access>, mem: seq<byte>)
    requires Open(c) && AllInMemory(accesses, |mem|) && |accesses| > 0
    ensures var k := Granted(c, accesses[0]);
            Accepted(c, accesses, mem) == Offered(accesses[0], mem)[..k] + Accepted(Take(c, k), accesses[1..], mem)
  {
    hide Granted, Take, Offered;
  }

  lemma MoveStep(c: Channel, accesses: seq<Access>, memory: nat)
    requires Open(c) && AllInMemory(accesses, memory) && |accesses| > 0
    ensures var k := Granted(c, accesses[0]);
            Moved(c, accesses, memory) == k + Moved(Take(c, k), accesses[1..], memory)
  {
    hide Granted, Take;
  }

  lemma WordGranted(c: Channel, a: Access)
    requires !a.Block?
    ensures Granted(c, a) == if c.left >= Width(a) then Width(a) else 0
  {
  }

  /** An address register stays a byte whatever it is set to. */
  lemma SetSectorValid(r: Regs, g: Geometry, n: nat)
    requires ValidRegs(r) && ValidGeometry(g)
    ensures ValidRegs(SetSector(r, g, n))
  {
    hide Or, Quotient, Rest, PerCylinder;
  }

  lemma StillNames(was: Regs, r: Regs, g: Geometry, n: nat)
    requires ValidGeometry(g)
    ensures Names(r, was, g, n) ==> GetSector(r, g) == n && Capacity(r, g) == Capacity(was, g)
  {
    hide GetSector, PerCylinder, ValidGeometry, ValidRegs;
  }
}
