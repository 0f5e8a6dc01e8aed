/**
 The paged guest memory: a FIFO page cache with a four-entry lookaside in front
 of a lazily initialised backing store, updated in place.  `mem` is the flat
 memory the cache stands for; every access is specified on `mem` alone.

 A backing transfer may fail, unless the device is `reliable` or the SPI PSRAM.
 `faults` records the page of each transfer that failed, and `lost` collects those
 whose failure cost bytes; all other pages keep behaving like flat memory, whatever
 fails and whenever.
 */
module Paging {
  import opened GuestMemory
  import opened PageTable
  import opened WordMove

  const HOT_PAGE_COUNT: nat := 4

  /** What mapping `page` does to the slot table: nothing on a hit, FIFO on a miss. */
  function MapFifo(tab: seq<nat>, victim: nat, page: nat): (r: (seq<nat>, nat))
    requires victim < |tab|
    ensures |r.0| == |tab| && r.1 < |tab|
  {
    if Absent(tab, page) then
      (tab[victim := page], if victim + 1 == |tab| then 0 else victim + 1)
    else
      (tab, victim)
  }

  /** What failures have done so far, with the slot table. */
  datatype Harm = Harm(lost: set<nat>, faults: seq<nat>, tab: seq<nat>)

  function Pages(s: seq<nat>): (r: set<nat>) {
    set p | p in s && p < PAGE_COUNT
  }

  /** The pages of a block. */
  function PagesOf(addr: nat, len: nat): (r: set<nat>) {
    set p: nat | p < PAGE_COUNT && addr / PAGE_SIZE <= p && p * PAGE_SIZE < addr + len
  }

  /**
   Work on `pages` loses exactly the pages whose transfer fails meanwhile, and those
   are among `pages` and the pages resident before.
   */
  ghost predicate Grows(a: Harm, b: Harm, pages: set<nat>) {
    && a.faults <= b.faults
    && b.lost == a.lost + Pages(b.faults[|a.faults|..])
    && Pages(b.faults[|a.faults|..]) <= Pages(a.tab) + pages
    && Pages(b.tab) <= Pages(a.tab) + pages
  }

  lemma GrowsNot(a: Harm, pages: set<nat>)
    ensures Grows(a, a, pages)
  {
  }

  lemma GrowsTrans(a: Harm, b: Harm, c: Harm, p: set<nat>, q: set<nat>, pages: set<nat>)
    requires Grows(a, b, p) && Grows(b, c, q) && p <= pages && q <= pages
    ensures Grows(a, c, pages) && a.lost <= b.lost <= c.lost
  {
    var x, y := b.faults[|a.faults|..], c.faults[|b.faults|..];
    assert c.faults[|a.faults|..] == x + y;
    assert Pages(x + y) == Pages(x) + Pages(y) by { forall z ensures z in x + y <==> z in x || z in y {} }
    hide Pages;
  }

  lemma GrowsWider(a: Harm, p: set<nat>, pages: set<nat>)
    requires p <= pages
    ensures forall b :: Grows(a, b, p) ==> Grows(a, b, pages)
  {
  }

  lemma OnePage(addr: nat, len: nat, k: nat)
    requires k < len && addr + len <= SPACE
    ensures (addr + k) / PAGE_SIZE in PagesOf(addr, len)
  {
  }

  /** A miss: at most the victim's page and the new one fail, and they are what is lost. */
  lemma MissGrows(a: Harm, b: Harm, slot: nat, page: nat, writeOk: bool, readOk: bool)
    requires slot < |a.tab| && b.tab == a.tab[slot := page] && page < PAGE_COUNT
    requires !writeOk ==> a.tab[slot] < PAGE_COUNT
    requires var w := if writeOk then [] else [a.tab[slot]];
             var r := if readOk then [] else [page];
             b.faults == a.faults + w + r
             && b.lost == a.lost + (if writeOk then {} else {a.tab[slot]}) + (if readOk then {} else {page})
    ensures Grows(a, b, {page})
  {
    var w := if writeOk then [] else [a.tab[slot]];
    var r := if readOk then [] else [page];
    assert b.faults[|a.faults|..] == w + r;
    assert Pages(w) == if writeOk then {} else {a.tab[slot]};
    assert Pages(r) == if readOk then {} else {page};
    assert Pages(w + r) == Pages(w) + Pages(r);
    assert a.tab[slot] in a.tab;
    forall p | p in b.tab ensures p in a.tab || p == page {
      var i :| 0 <= i < |b.tab| && b.tab[i] == p;
      assert i != slot ==> a.tab[i] == p;
    }
  }

  /** psram_read moves at most 31 bytes per transaction, psram_write at most 27. */
  const READ_CHUNK: nat := 31
  const WRITE_CHUNK: nat := 27

  /** One transaction. */
  method Transfer(dst: array<byte>, d: nat, src: array<byte>, s: nat, len: nat)
    requires dst != src && d + len <= dst.Length && s + len <= src.Length
    modifies dst
    ensures forall k :: 0 <= k < dst.Length ==> dst[k] == if d <= k < d + len then src[s + k - d] else old(dst[k])
  {
    forall i | 0 <= i < len { dst[d + i] := src[s + i]; }
  }

  /** A page moved in transactions of at most `limit` bytes. */
  method TransferPage(dst: array<byte>, d: nat, src: array<byte>, s: nat, limit: nat)
    requires dst != src && d + PAGE_SIZE <= dst.Length && s + PAGE_SIZE <= src.Length && limit > 0
    modifies dst
    ensures dst[..] == Splice(old(dst[..]), d, src[s..s + PAGE_SIZE])
  {
    var left := PAGE_SIZE;
    while left > 0
      invariant 0 <= left <= PAGE_SIZE
      invariant forall k :: 0 <= k < dst.Length ==>
                  dst[k] == if d <= k < d + PAGE_SIZE - left then src[s + k - d] else old(dst[k])
    {
      var chunk := if left > limit then limit else left;
      Transfer(dst, d + PAGE_SIZE - left, src, s + PAGE_SIZE - left, chunk);
      left := left - chunk;
    }
  }

  class GuestRam {
    const count: nat                 // cache_page_count
    const useSpi: bool               // use_spi_psram
    const reliable: bool
    const ramPages: array<byte>
    const cachePage: array<nat>
    const cacheDirty: array<bool>
    const backing: array<byte>
    const backingValid: array<bv8>
    const hotPage: array<nat>
    const hotSlot: array<nat>
    var victim: nat
    ghost var mem: seq<byte>
    ghost var lost: set<nat>
    ghost var faults: seq<nat>       // pages of the transfers that failed

    /** The SPI PSRAM cannot report an error; a page file may be on a card that never does. */
    predicate NeverFails() { reliable || useSpi }

    ghost function Repr(): set<object> {
      {this, ramPages, cachePage, cacheDirty, backing, backingValid, hotPage, hotSlot}
    }

    ghost function Harms(): (h: Harm)
      reads this`lost, this`faults, cachePage
    {
      Harm(lost, faults, cachePage[..])
    }

    ghost function Value(): Cache
      reads ramPages, cachePage, cacheDirty, backing, backingValid
    {
      Cache(ramPages[..], cachePage[..], cacheDirty[..], backing[..], backingValid[..])
    }

    ghost predicate Layout()
      reads cachePage, ramPages, cacheDirty, backing, backingValid
    {
      && ramPages != backing
      && cachePage != hotPage && cachePage != hotSlot && hotPage != hotSlot
      && cachePage.Length == count
      && hotPage.Length == hotSlot.Length == HOT_PAGE_COUNT
      && Shape(Value())
    }

    ghost predicate Valid()
      reads Repr()
    {
      && Layout()
      && victim < count
      && |mem| == SPACE
      && Coherent(Value(), mem, lost)
      && (NeverFails() ==> lost == {} && faults == [])
    }

    constructor (count: nat, useSpi: bool, reliable: bool)
      requires 0 < count <= 96
      ensures Valid() && fresh(Repr())
      ensures this.count == count && this.reliable == reliable && this.useSpi == useSpi
      ensures lost == {} && faults == [] && mem == seq(SPACE, _ => 0)
    {
      this.count := count;
      this.useSpi := useSpi;
      this.reliable := reliable;
      ramPages := new byte[count * PAGE_SIZE](_ => 0);
      cachePage := new nat[count](_ => INVALID_PAGE);
      cacheDirty := new bool[count](_ => false);
      backing := new byte[SPACE](_ => 0);
      backingValid := new bv8[PAGE_COUNT / 8](_ => 0);
      hotPage := new nat[HOT_PAGE_COUNT](_ => INVALID_PAGE);
      hotSlot := new nat[HOT_PAGE_COUNT](_ => 255);
      victim := 0;
      mem := seq(SPACE, _ => 0);
      lost, faults := {}, [];
      new;
      Initial(Value(), mem);
    }

    /** The outcome of one file operation; the SPI PSRAM has no way to report an error. */
    method TransferOk(ghost page: nat) returns (ok: bool)
      modifies this`faults
      ensures NeverFails() ==> ok
      ensures faults == if ok then old(faults) else old(faults) + [page]
    {
      ok := *;
      if NeverFails() { ok := true; }
      if !ok { faults := faults + [page]; }
    }

    /** What a write that fails part-way leaves behind in the page's place. */
    method TornWrite(addr: nat) returns (ghost torn: seq<byte>)
      requires addr + PAGE_SIZE <= backing.Length
      modifies backing
      ensures |torn| == PAGE_SIZE
      ensures backing[..] == Splice(old(backing[..]), addr, torn)
    {
      var i := 0;
      while i < PAGE_SIZE
        invariant i <= PAGE_SIZE
        invariant forall k :: 0 <= k < backing.Length && !(addr <= k < addr + i) ==> backing[k] == old(backing[k])
      {
        var b: byte := *;
        backing[addr + i] := b;
        i := i + 1;
      }
      torn := backing[addr..addr + PAGE_SIZE];
    }

    /** The transfer of backing_write; the SPI path moves the page whatever the device then reports. */
    method WritePage(page: nat, slot: nat) returns (ok: bool, ghost torn: seq<byte>)
      requires Layout() && slot < count && page < PAGE_COUNT
      modifies backing, this`faults
      ensures |torn| == PAGE_SIZE && (NeverFails() ==> ok) && (ok ==> torn == Slot(Value(), slot))
      ensures faults == if ok then old(faults) else old(faults) + [page]
      ensures backing[..] == SetPage(old(backing[..]), page, torn)
    {
      torn := Page(ramPages[..], slot);
      ok := TransferOk(page);
      if useSpi {
        TransferPage(backing, page * PAGE_SIZE, ramPages, slot * PAGE_SIZE, WRITE_CHUNK);
      } else if ok {
        TransferPage(backing, page * PAGE_SIZE, ramPages, slot * PAGE_SIZE, PAGE_SIZE);
      } else {
        torn := TornWrite(page * PAGE_SIZE);
      }
    }

    method BackingWrite(slot: nat) returns (ok: bool, ghost torn: seq<byte>)
      requires Layout() && slot < count && cachePage[slot] != INVALID_PAGE
      modifies backing, backingValid, this`faults
      ensures |torn| == PAGE_SIZE && (NeverFails() ==> ok)
      ensures faults == if ok then old(faults) else old(faults) + [cachePage[slot]]
      ensures Value() == WriteBack(old(Value()), slot, ok, torn)
    {
      hide SetPage, Page, Mask, Splice;
      var page := cachePage[slot];
      ok, torn := WritePage(page, slot);
      if ok {
        backingValid[page / 8] := backingValid[page / 8] | Mask(page % 8);
      }
    }

    method BackingRead(page: nat, slot: nat) returns (ok: bool)
      requires Layout() && slot < count && page < PAGE_COUNT
      modifies ramPages, this`faults
      ensures NeverFails() ==> ok
      ensures faults == if ok then old(faults) else old(faults) + [page]
      ensures ramPages[..] == if ok then SetPage(old(ramPages[..]), slot, old(View(Value(), page)))
                              else old(ramPages[..])
    {
      ghost var c := Value();
      assert ValidBit(c.bits, page) == (backingValid[page / 8] & Mask(page % 8) != 0);
      if backingValid[page / 8] & Mask(page % 8) == 0 {
        ZeroSlot(slot);
        return true;
      }
      assert View(c, page) == Page(backing[..], page);
      ok := TransferOk(page);
      if useSpi {
        TransferPage(ramPages, slot * PAGE_SIZE, backing, page * PAGE_SIZE, READ_CHUNK);
      } else if ok {
        TransferPage(ramPages, slot * PAGE_SIZE, backing, page * PAGE_SIZE, PAGE_SIZE);
      }
    }

    method ZeroSlot(slot: nat)
      requires (slot + 1) * PAGE_SIZE <= ramPages.Length
      modifies ramPages
      ensures ramPages[..] == SetPage(old(ramPages[..]), slot, Zeros())
    {
      WriteBytes(ramPages, slot * PAGE_SIZE, seq(PAGE_SIZE, _ => 0));
    }

    method HotPageRemember(page: nat, slot: nat)
      requires hotPage != hotSlot && hotPage.Length == hotSlot.Length == HOT_PAGE_COUNT
      modifies hotPage, hotSlot
      ensures hotPage[0] == page && hotSlot[0] == slot
      ensures forall i :: 0 < i < HOT_PAGE_COUNT ==>
                hotPage[i] == old(hotPage[i - 1]) && hotSlot[i] == old(hotSlot[i - 1])
    {
      var i := HOT_PAGE_COUNT - 1;
      while i != 0
        invariant 0 <= i < HOT_PAGE_COUNT
        invariant forall k :: 0 <= k <= i ==> hotPage[k] == old(hotPage[k]) && hotSlot[k] == old(hotSlot[k])
        invariant forall k :: i < k < HOT_PAGE_COUNT ==>
                    hotPage[k] == old(hotPage[k - 1]) && hotSlot[k] == old(hotSlot[k - 1])
      {
        hotPage[i] := hotPage[i - 1];
        hotSlot[i] := hotSlot[i - 1];
        i := i - 1;
      }
      hotPage[0] := page;
      hotSlot[0] := slot;
    }

    /** A hit, through either lookup. */
    method TouchSlot(slot: nat, writeAccess: bool)
      requires Valid() && slot < count && cachePage[slot] != INVALID_PAGE
      modifies cacheDirty
      ensures Valid()
      ensures writeAccess ==> cacheDirty[slot]
    {
      if writeAccess {
        HitWrite(Value(), mem, lost, slot);
        cacheDirty[slot] := true;
        assert Value() == old(Value()).(dirty := old(Value()).dirty[slot := true]);
      }
    }

    /** The lookaside; an entry counts only if the slot table confirms it. */
    method HotLookup(page: nat) returns (slot: nat)
      requires Valid()
      ensures slot < count ==> cachePage[slot] == page
    {
      hide Coherent, Shape;
      var i := 0;
      while i < HOT_PAGE_COUNT
        invariant i <= HOT_PAGE_COUNT
      {
        slot := hotSlot[i];
        if hotPage[i] == page && slot < count && cachePage[slot] == page {
          return;
        }
        i := i + 1;
      }
      slot := count;
    }

    method ScanSlots(page: nat) returns (slot: nat)
      requires Valid()
      ensures slot < count ==> cachePage[slot] == page
      ensures slot < count <==> !Absent(cachePage[..], page)
    {
      hide Coherent, Shape;
      slot := 0;
      while slot < count
        invariant slot <= count
        invariant forall s :: 0 <= s < slot ==> cachePage[s] != page
      {
        if cachePage[slot] == page {
          assert cachePage[..][slot] == page;
          return;
        }
        slot := slot + 1;
      }
    }

    /** The page the next miss has to write back. */
    ghost function VictimPage(): (r: set<nat>)
      requires Layout() && victim < count
      reads this`victim, cachePage, ramPages, cacheDirty, backing, backingValid
    {
      DirtyPage(victim)
    }

    ghost function DirtyPage(slot: nat): (r: set<nat>)
      requires Layout() && slot < count
      reads cachePage, ramPages, cacheDirty, backing, backingValid
    {
      if cachePage[slot] != INVALID_PAGE && cacheDirty[slot] then {cachePage[slot]} else {}
    }

    /**
     Bring `page` into a slot.  Whatever is hit, evicted or loaded on the way,
     the flat memory stays as it is on every page no failure has hit.
     */
    method MapPage(page: nat, writeAccess: bool) returns (slot: nat)
      requires Valid() && page < PAGE_COUNT
      modifies Repr()
      ensures Valid()
      ensures slot < count && cachePage[slot] == page && (writeAccess ==> cacheDirty[slot])
      ensures Agree(mem, old(mem), lost) && Grows(old(Harms()), Harms(), {page})
      ensures if old(Absent(cachePage[..], page)) then lost <= old(lost) + {page} + old(VictimPage())
              else lost == old(lost)
      ensures (cachePage[..], victim) == old(MapFifo(cachePage[..], victim, page))
    {
      hide Coherent, Page, Pages;
      GrowsNot(Harms(), {page});
      slot := HotLookup(page);
      if slot < count {
        assert cachePage[..][slot] == page;
        TouchSlot(slot, writeAccess);
        return;
      }
      slot := ScanSlots(page);
      if slot < count {
        TouchSlot(slot, writeAccess);
        HotPageRemember(page, slot);
        return;
      }
      slot := victim;
      victim := if victim + 1 == count then 0 else victim + 1;
      LoadVictim(slot, page, writeAccess);
      HotPageRemember(page, slot);
    }

    /** The miss path: write the victim back if it is dirty, then load `page` over it. */
    method LoadVictim(slot: nat, page: nat, writeAccess: bool)
      requires Valid() && page < PAGE_COUNT && slot < count && Absent(cachePage[..], page)
      modifies this`mem, this`lost, this`faults, ramPages, cachePage, cacheDirty, backing, backingValid
      ensures Valid()
      ensures cachePage[..] == old(cachePage[..])[slot := page] && cacheDirty[slot] == writeAccess
      ensures Agree(mem, old(mem), lost) && Grows(old(Harms()), Harms(), {page})
      ensures lost <= old(lost) + {page} + old(DirtyPage(slot))
    {
      hide Coherent, Grows, AfterMiss, View, WriteBack, SetPage;
      ghost var h := Harms();
      ghost var c := Value();
      var writeOk, readOk;
      ghost var torn;
      writeOk, torn := EvictVictim(slot);
      ghost var e := Value();
      readOk := FillVictim(slot, page, writeAccess);
      ghost var data := if readOk then View(e, page) else Zeros();
      MissStep(c, mem, lost, slot, page, writeAccess, writeOk, readOk, torn);
      mem, lost := AfterMiss(e, mem, slot, page, data), MissLost(c, lost, slot, page, writeOk, readOk);
      MissGrows(h, Harms(), slot, page, writeOk, readOk);
    }

    method EvictVictim(slot: nat) returns (ok: bool, ghost torn: seq<byte>)
      requires Layout() && slot < count
      modifies backing, backingValid, this`faults
      ensures |torn| == PAGE_SIZE && (NeverFails() ==> ok)
      ensures faults == if ok then old(faults) else old(faults) + [cachePage[slot]]
      ensures !ok ==> cachePage[slot] < PAGE_COUNT && cacheDirty[slot]
      ensures Value() == Evicted(old(Value()), slot, ok, torn)
    {
      ok, torn := true, Zeros();
      if cachePage[slot] != INVALID_PAGE && cacheDirty[slot] {
        ok, torn := BackingWrite(slot);
      }
    }

    method FillVictim(slot: nat, page: nat, writeAccess: bool) returns (ok: bool)
      requires Layout() && slot < count && page < PAGE_COUNT
      modifies ramPages, cachePage, cacheDirty, this`faults
      ensures NeverFails() ==> ok
      ensures faults == if ok then old(faults) else old(faults) + [page]
      ensures var data := if ok then old(View(Value(), page)) else Zeros();
              Value() == Loaded(old(Value()), slot, page, data, writeAccess)
    {
      ok := BackingRead(page, slot);
      if !ok {
        ZeroSlot(slot);
      }
      cachePage[slot] := page;
      cacheDirty[slot] := writeAccess;
    }

    /** ega128_page_ptr: a pointer into ram_pages, good up to the end of the page. */
    method PagePtr(addr: nat, writeAccess: bool) returns (ptr: nat, span: nat)
      requires Valid() && addr < SPACE
      modifies Repr()
      ensures Valid() && Agree(mem, old(mem), lost) && Grows(old(Harms()), Harms(), {addr / PAGE_SIZE})
      ensures if old(Absent(cachePage[..], addr / PAGE_SIZE))
              then lost <= old(lost) + {addr / PAGE_SIZE} + old(VictimPage())
              else lost == old(lost)
      ensures (cachePage[..], victim) == old(MapFifo(cachePage[..], victim, addr / PAGE_SIZE))
      ensures PointsAt(ptr, addr) && span == PAGE_SIZE - addr % PAGE_SIZE
      ensures writeAccess ==> cacheDirty[ptr / PAGE_SIZE]
    {
      hide Coherent, Agree, MapFifo, Shape, Grows;
      var off := addr % PAGE_SIZE;
      var slot := MapPage(addr / PAGE_SIZE, writeAccess);
      span := PAGE_SIZE - off;
      ptr := slot * PAGE_SIZE + off;
    }

    /** `ptr` is where the byte at guest address `addr` currently sits. */
    ghost predicate PointsAt(ptr: nat, addr: nat)
      reads cachePage
    {
      && ptr / PAGE_SIZE < cachePage.Length
      && ptr % PAGE_SIZE == addr % PAGE_SIZE
      && cachePage[ptr / PAGE_SIZE] == addr / PAGE_SIZE
    }

    /** Within a page the next bytes are behind the next pointers. */
    lemma NextPointer(ptr: nat, addr: nat, k: nat)
      requires PointsAt(ptr, addr) && addr % PAGE_SIZE + k < PAGE_SIZE
      ensures PointsAt(ptr + k, addr + k) && (ptr + k) / PAGE_SIZE == ptr / PAGE_SIZE
    {
    }

    /** What a pointer sees, up to the end of its page, is the flat memory. */
    lemma PointedBytes(ptr: nat, addr: nat, n: nat)
      requires Valid() && PointsAt(ptr, addr) && addr < SPACE && addr % PAGE_SIZE + n <= PAGE_SIZE
      ensures ptr + n <= ramPages.Length && addr + n <= SPACE
      ensures ramPages[ptr..ptr + n] == mem[addr..addr + n]
    {
      var s := ptr / PAGE_SIZE;
      assert Slot(Value(), s) == Page(mem, addr / PAGE_SIZE);
      SliceOfPage(ramPages[..], ptr, n);
      SliceOfPage(mem, addr, n);
    }

    lemma PointedByte(ptr: nat, addr: nat)
      requires Valid() && PointsAt(ptr, addr) && addr < SPACE
      ensures ptr < ramPages.Length && ramPages[ptr] == mem[addr]
    {
      PointedBytes(ptr, addr, 1);
      assert ramPages[ptr..ptr + 1][0] == mem[addr..addr + 1][0];
    }

    /** One byte written through a pointer that was obtained for writing. */
    method Poke(ptr: nat, ghost addr: nat, v: byte)
      requires Valid() && addr < SPACE && PointsAt(ptr, addr) && cacheDirty[ptr / PAGE_SIZE]
      modifies this`mem, ramPages
      ensures Valid() && mem == old(mem)[addr := v]
    {
      hide Mapped, Unmapped, Clean, Distinct;
      PointedBytes(ptr, addr, 1);
      StoreThrough(Value(), mem, lost, ptr / PAGE_SIZE, ptr % PAGE_SIZE, v);
      ghost var c := Value();
      ramPages[ptr] := v;
      mem := mem[addr := v];
      assert Value() == c.(ram := c.ram[ptr := v]);
    }

    /** Bytes from a host buffer copied to a pointer that was obtained for writing. */
    method PokeRange(ptr: nat, ghost addr: nat, bs: seq<byte>)
      requires Valid() && addr < SPACE && PointsAt(ptr, addr) && addr % PAGE_SIZE + |bs| <= PAGE_SIZE
      requires cacheDirty[ptr / PAGE_SIZE]
      modifies this`mem, ramPages
      ensures Valid() && addr + |bs| <= SPACE && mem == Splice(old(mem), addr, bs)
    {
      hide Mapped, Unmapped, Clean, Distinct;
      PointedBytes(ptr, addr, |bs|);
      StoreBlock(Value(), mem, lost, ptr / PAGE_SIZE, ptr % PAGE_SIZE, bs);
      ghost var c := Value();
      WriteBytes(ramPages, ptr, bs);
      mem := Splice(mem, addr, bs);
      assert Value() == c.(ram := Splice(c.ram, ptr, bs));
    }

    /** memcpy inside ram_pages: `ptr` stands for `addr`, `from` for `source`. */
    method CopyRange(ptr: nat, ghost addr: nat, from: nat, ghost source: nat, n: nat)
      requires Valid() && addr < SPACE && PointsAt(ptr, addr) && addr % PAGE_SIZE + n <= PAGE_SIZE
      requires cacheDirty[ptr / PAGE_SIZE]
      requires source < SPACE && PointsAt(from, source) && source % PAGE_SIZE + n <= PAGE_SIZE
      modifies this`mem, ramPages
      ensures Valid() && addr + n <= SPACE && source + n <= SPACE && mem == ForwardCopy(old(mem), addr, source, n)
    {
      hide Mapped, Unmapped, Clean, Distinct, ForwardCopy;
      PointedBytes(ptr, addr, n);
      PointedBytes(from, source, n);
      ghost var c := Value();
      CopyBetweenSlots(c, mem, lost, ptr / PAGE_SIZE, ptr % PAGE_SIZE, from / PAGE_SIZE, from % PAGE_SIZE, n);
      MemCpy(ramPages, ptr, from, n);
      mem := ForwardCopy(mem, addr, source, n);
      assert Value() == c.(ram := ForwardCopy(c.ram, ptr, from, n));
    }

    /** ega128_cache_ptr_to_linear: the guest address a cache pointer stands for. */
    method PtrToLinear(ptr: int) returns (linear: int)
      requires Valid()
      ensures linear >= 0 <==> 0 <= ptr < ramPages.Length && cachePage[ptr / PAGE_SIZE] != INVALID_PAGE
      ensures linear >= 0 ==> PointsAt(ptr, linear) && linear < SPACE && ramPages[ptr] == mem[linear]
    {
      hide Mapped, Unmapped, Clean, Distinct;
      if ptr < 0 || ptr >= ramPages.Length {
        return -1;
      }
      var slot := ptr / PAGE_SIZE;
      var off := ptr % PAGE_SIZE;
      if cachePage[slot] == INVALID_PAGE {
        return -1;
      }
      linear := cachePage[slot] * PAGE_SIZE + off;
      PointedByte(ptr, linear);
    }

    // ----- Loads and stores; a straddling access is done byte by byte -----

    method Load8(addr: nat) returns (v: byte)
      requires Valid() && addr < SPACE
      modifies Repr()
      ensures Valid() && Agree(mem, old(mem), lost) && Grows(old(Harms()), Harms(), {addr / PAGE_SIZE})
      ensures old(!Absent(cachePage[..], addr / PAGE_SIZE)) ==> lost == old(lost)
      ensures v == mem[addr]
      ensures addr / PAGE_SIZE !in lost ==> v == old(mem)[addr]
    {
      hide Coherent, Shape, Agree, MapFifo, Grows;
      var p, _ := PagePtr(addr, false);
      PointedByte(p, addr);
      v := ramPages[p];
      if addr / PAGE_SIZE !in lost { AgreeByte(mem, old(mem), lost, addr); }
    }

    method Load16(addr: nat) returns (v: nat)
      requires Valid() && addr + 2 <= SPACE
      modifies Repr()
      ensures Valid() && Agree(mem, old(mem), lost) && Grows(old(Harms()), Harms(), PagesOf(addr, 2))
      ensures Sound(lost, addr, 2) ==> v == Load(old(mem), addr, 2)
    {
      hide Coherent, Shape, Agree, Grows, PagesOf, MapFifo, Absent;
      ghost var h, pages := Harms(), PagesOf(addr, 2);
      OnePage(addr, 2, 0);
      GrowsWider(h, {addr / PAGE_SIZE}, pages);
      if addr % PAGE_SIZE <= PAGE_SIZE - 2 {
        var p, _ := PagePtr(addr, false);
        v := Word(p, addr);
        SoundLoad(mem, old(mem), lost, addr, 2);
      } else {
        var b0: nat := Load8(addr);
        OnePage(addr, 2, 1);
        var b1: nat := LoadNext(addr + 1, old(mem), h, pages);
        v := b0 + 256 * b1;
        LoadIs2(old(mem), addr);
      }
    }

    method Load32(addr: nat) returns (v: nat)
      requires Valid() && addr + 4 <= SPACE
      modifies Repr()
      ensures Valid() && Agree(mem, old(mem), lost) && Grows(old(Harms()), Harms(), PagesOf(addr, 4))
      ensures Sound(lost, addr, 4) ==> v == Load(old(mem), addr, 4)
    {
      hide Coherent, Shape, Agree, Grows, PagesOf, MapFifo, Absent;
      ghost var h, pages := Harms(), PagesOf(addr, 4);
      OnePage(addr, 4, 0);
      GrowsWider(h, {addr / PAGE_SIZE}, pages);
      if addr % PAGE_SIZE <= PAGE_SIZE - 4 {
        var p, _ := PagePtr(addr, false);
        v := DWord(p, addr);
        SoundLoad(mem, old(mem), lost, addr, 4);
      } else {
        var b0: nat := Load8(addr);
        OnePage(addr, 4, 1);
        var b1: nat := LoadNext(addr + 1, old(mem), h, pages);
        OnePage(addr, 4, 2);
        var b2: nat := LoadNext(addr + 2, old(mem), h, pages);
        OnePage(addr, 4, 3);
        var b3: nat := LoadNext(addr + 3, old(mem), h, pages);
        v := b0 + 256 * b1 + 65536 * b2 + 16777216 * b3;
        assert Sound(lost, addr, 4) ==> forall k :: 0 <= k < 4 ==> SamePageAsEnd(addr, k, 4);
        LoadIs4(old(mem), addr);
      }
    }

    /** A byte load in the middle of a longer access, since when the memory has been `m`. */
    method LoadNext(addr: nat, ghost m: seq<byte>, ghost h: Harm, ghost pages: set<nat>) returns (v: byte)
      requires Valid() && addr < SPACE && |m| == SPACE && Agree(mem, m, lost)
      requires Grows(h, Harms(), pages) && addr / PAGE_SIZE in pages
      modifies Repr()
      ensures Valid() && Agree(mem, m, lost) && old(lost) <= lost && Grows(h, Harms(), pages)
      ensures addr / PAGE_SIZE !in lost ==> v == m[addr]
    {
      hide Coherent, Shape, Agree, Grows, MapFifo, Absent;
      ghost var n, l, h1 := mem, lost, Harms();
      v := Load8(addr);
      GrowsTrans(h, h1, Harms(), pages, {addr / PAGE_SIZE}, pages);
      AgreeTrans(mem, n, m, l, lost);
      if addr / PAGE_SIZE !in lost { AgreeByte(mem, m, lost, addr); }
    }

    method Word(p: nat, ghost addr: nat) returns (v: nat)
      requires Valid() && PointsAt(p, addr) && addr < SPACE && addr % PAGE_SIZE + 2 <= PAGE_SIZE
      ensures addr + 2 <= SPACE && v == Load(mem, addr, 2)
    {
      hide Coherent, Shape;
      PointedBytes(p, addr, 2);
      var b0: nat, b1: nat := ramPages[p], ramPages[p + 1];
      v := b0 + 256 * b1;
      FromBytes2(b0, b1);
      assert ramPages[p..p + 2] == [b0, b1];
    }

    method DWord(p: nat, ghost addr: nat) returns (v: nat)
      requires Valid() && PointsAt(p, addr) && addr < SPACE && addr % PAGE_SIZE + 4 <= PAGE_SIZE
      ensures addr + 4 <= SPACE && v == Load(mem, addr, 4)
    {
      hide Coherent, Shape;
      PointedBytes(p, addr, 4);
      var b0: nat, b1: nat, b2: nat, b3: nat := ramPages[p], ramPages[p + 1], ramPages[p + 2], ramPages[p + 3];
      v := b0 + 256 * b1 + 65536 * b2 + 16777216 * b3;
      FromBytes4(b0, b1, b2, b3);
      assert ramPages[p..p + 4] == [b0, b1, b2, b3];
    }

    method Store8(addr: nat, v: byte)
      requires Valid() && addr < SPACE
      modifies Repr()
      ensures Valid() && Agree(mem, old(mem)[addr := v], lost) && Grows(old(Harms()), Harms(), {addr / PAGE_SIZE})
      ensures old(!Absent(cachePage[..], addr / PAGE_SIZE)) ==> lost == old(lost)
    {
      hide Coherent, Shape, Grows, MapFifo, Absent;
      var p, _ := PagePtr(addr, true);
      AgreeUpdate(mem, old(mem), lost, addr, v);
      Poke(p, addr, v);
    }

    method Store16(addr: nat, v: nat)
      requires Valid() && addr + 2 <= SPACE
      modifies Repr()
      ensures Valid() && Agree(mem, Store(old(mem), addr, 2, v), lost) && Grows(old(Harms()), Harms(), PagesOf(addr, 2))
    {
      hide Coherent, Shape, Agree, Grows, PagesOf, MapFifo, Absent;
      ghost var h, pages := Harms(), PagesOf(addr, 2);
      OnePage(addr, 2, 0);
      GrowsWider(h, {addr / PAGE_SIZE}, pages);
      ghost var m1 := old(mem)[addr := v % 256];
      ghost var m2 := m1[addr + 1 := v / 256 % 256];
      StoreIs2(old(mem), addr, v);
      if addr % PAGE_SIZE <= PAGE_SIZE - 2 {
        var p, _ := PagePtr(addr, true);
        AgreeUpdate(mem, old(mem), lost, addr, v % 256);
        AgreeUpdate(mem[addr := v % 256], m1, lost, addr + 1, v / 256 % 256);
        Poke2(p, addr, v % 256, v / 256 % 256);
      } else {
        Store8(addr, v % 256);
        OnePage(addr, 2, 1);
        StoreNext(addr + 1, v / 256 % 256, m1, h, pages);
      }
    }

    method Store32(addr: nat, v: nat)
      requires Valid() && addr + 4 <= SPACE
      modifies Repr()
      ensures Valid() && Agree(mem, Store(old(mem), addr, 4, v), lost) && Grows(old(Harms()), Harms(), PagesOf(addr, 4))
    {
      hide Coherent, Shape, Agree, Grows, PagesOf, MapFifo, Absent;
      ghost var h, pages := Harms(), PagesOf(addr, 4);
      OnePage(addr, 4, 0);
      GrowsWider(h, {addr / PAGE_SIZE}, pages);
      var b0, b1, b2, b3 := v % 256, v / 256 % 256, v / 65536 % 256, v / 16777216 % 256;
      StoreIs4(old(mem), addr, v);
      ghost var m1 := old(mem)[addr := b0];
      ghost var m2 := m1[addr + 1 := b1];
      ghost var m3 := m2[addr + 2 := b2];
      ghost var m4 := m3[addr + 3 := b3];
      if addr % PAGE_SIZE <= PAGE_SIZE - 4 {
        var p, _ := PagePtr(addr, true);
        AgreeUpdate(mem, old(mem), lost, addr, b0);
        AgreeUpdate(mem[addr := b0], m1, lost, addr + 1, b1);
        AgreeUpdate(mem[addr := b0][addr + 1 := b1], m2, lost, addr + 2, b2);
        AgreeUpdate(mem[addr := b0][addr + 1 := b1][addr + 2 := b2], m3, lost, addr + 3, b3);
        Poke4(p, addr, b0, b1, b2, b3);
      } else {
        Store8(addr, b0);
        OnePage(addr, 4, 1);
        StoreNext(addr + 1, b1, m1, h, pages);
        OnePage(addr, 4, 2);
        StoreNext(addr + 2, b2, m2, h, pages);
        OnePage(addr, 4, 3);
        StoreNext(addr + 3, b3, m3, h, pages);
      }
    }

    method Poke2(p: nat, ghost addr: nat, b0: byte, b1: byte)
      requires Valid() && addr + 2 <= SPACE && PointsAt(p, addr) && addr % PAGE_SIZE + 2 <= PAGE_SIZE
      requires cacheDirty[p / PAGE_SIZE]
      modifies this`mem, ramPages
      ensures Valid() && mem == old(mem)[addr := b0][addr + 1 := b1]
    {
      hide Coherent, Shape, Agree, PointsAt;
      NextPointer(p, addr, 1);
      Poke(p, addr, b0);
      Poke(p + 1, addr + 1, b1);
    }

    method Poke4(p: nat, ghost addr: nat, b0: byte, b1: byte, b2: byte, b3: byte)
      requires Valid() && addr + 4 <= SPACE && PointsAt(p, addr) && addr % PAGE_SIZE + 4 <= PAGE_SIZE
      requires cacheDirty[p / PAGE_SIZE]
      modifies this`mem, ramPages
      ensures Valid() && mem == old(mem)[addr := b0][addr + 1 := b1][addr + 2 := b2][addr + 3 := b3]
    {
      hide Coherent, Shape, Agree, PointsAt;
      NextPointer(p, addr, 1);
      NextPointer(p, addr, 2);
      NextPointer(p, addr, 3);
      Poke(p, addr, b0);
      Poke(p + 1, addr + 1, b1);
      Poke(p + 2, addr + 2, b2);
      Poke(p + 3, addr + 3, b3);
    }

    /** A byte store in the middle of a longer access that has made the memory agree with `m`. */
    method StoreNext(addr: nat, v: byte, ghost m: seq<byte>, ghost h: Harm, ghost pages: set<nat>)
      requires Valid() && addr < SPACE && |m| == SPACE && Agree(mem, m, lost)
      requires Grows(h, Harms(), pages) && addr / PAGE_SIZE in pages
      modifies Repr()
      ensures Valid() && Agree(mem, m[addr := v], lost) && Grows(h, Harms(), pages)
    {
      hide Coherent, Shape, Agree, Grows, MapFifo, Absent;
      AgreeUpdate(mem, m, lost, addr, v);
      ghost var n, l, h1 := mem[addr := v], lost, Harms();
      Store8(addr, v);
      GrowsTrans(h, h1, Harms(), pages, {addr / PAGE_SIZE}, pages);
      AgreeTrans(mem, n, m[addr := v], l, lost);
    }

    /**
     ega128_paging_flush.  It never changes the memory, not even when it gives up
     half-way; after a successful one the backing store alone holds the memory.
     */
    method Flush() returns (ok: bool)
      requires Valid()
      modifies cacheDirty, backing, backingValid, this`faults
      ensures Valid() && old(faults) <= faults
      ensures ok ==> forall p: nat :: p < PAGE_COUNT && p !in lost ==> View(Value(), p) == Page(mem, p)
      ensures NeverFails() ==> ok
    {
      hide Coherent, View, WriteBack;
      var slot := 0;
      while slot < count
        invariant slot <= count && Valid() && old(faults) <= faults
        invariant forall s :: 0 <= s < slot && cachePage[s] != INVALID_PAGE ==> !cacheDirty[s]
      {
        if cachePage[slot] != INVALID_PAGE && cacheDirty[slot] {
          ghost var c := Value();
          var written, torn := BackingWrite(slot);
          FlushSlot(c, mem, lost, slot, written, torn);
          if !written {
            return false;
          }
          cacheDirty[slot] := false;
          ghost var w := WriteBack(c, slot, written, torn);
          assert Value() == w.(dirty := w.dirty[slot := false]);
        }
        slot := slot + 1;
      }
      forall p: nat | p < PAGE_COUNT && p !in lost ensures View(Value(), p) == Page(mem, p) {
        FlushedMeansBacked(Value(), mem, lost, p);
      }
      ok := *;                // f_sync
      if NeverFails() { ok := true; }
    }
  }

  /** Bytes `k` of a `w`-byte access sit on its first or on its last page. */
  predicate SamePageAsEnd(addr: nat, k: nat, w: nat)
    requires 0 < w
  {
    (addr + k) / PAGE_SIZE == addr / PAGE_SIZE || (addr + k) / PAGE_SIZE == (addr + w - 1) / PAGE_SIZE
  }

  lemma LoadIs2(m: seq<byte>, a: nat)
    requires a + 2 <= |m|
    ensures Load(m, a, 2) == m[a] as nat + 256 * m[a + 1] as nat
  {
    assert m[a..a + 2] == [m[a], m[a + 1]];
    FromBytes2(m[a], m[a + 1]);
  }

  lemma LoadIs4(m: seq<byte>, a: nat)
    requires a + 4 <= |m|
    ensures Load(m, a, 4) == m[a] as nat + 256 * m[a + 1] as nat + 65536 * m[a + 2] as nat + 16777216 * m[a + 3] as nat
  {
    assert m[a..a + 4] == [m[a], m[a + 1], m[a + 2], m[a + 3]];
    FromBytes4(m[a], m[a + 1], m[a + 2], m[a + 3]);
  }

  lemma StoreIs2(m: seq<byte>, a: nat, v: nat)
    requires a + 2 <= |m|
    ensures Store(m, a, 2, v) == m[a := v % 256][a + 1 := v / 256 % 256]
  {
    ToBytes2(v);
  }

  lemma StoreIs4(m: seq<byte>, a: nat, v: nat)
    requires a + 4 <= |m|
    ensures Store(m, a, 4, v)
         == m[a := v % 256][a + 1 := v / 256 % 256][a + 2 := v / 65536 % 256][a + 3 := v / 16777216 % 256]
  {
    ToBytes4(v);
  }
}
