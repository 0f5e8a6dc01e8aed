/**
 The page cache as a value: which page sits in which slot, what is dirty, and
 what the backing store holds.  The lemmas here are the steps of the cache
 (hit, evict-and-load, store through a pointer, write-back) on that value; the
 class in Paging.dfy performs them in place.
 */
module PageTable {
  import opened GuestMemory
  import opened WordMove

  const PAGE_SIZE: nat := 2048
  const SPACE: nat := 8388608        // EGA128_VIRTUAL_RAM_SIZE
  const PAGE_COUNT: nat := 4096      // SPACE / PAGE_SIZE
  const INVALID_PAGE: nat := 65535   // 0xffff

  // ----- Whole pages of a byte sequence -----

  ghost function Page(m: seq<byte>, p: nat): (d: seq<byte>)
    requires (p + 1) * PAGE_SIZE <= |m|
    ensures |d| == PAGE_SIZE
  {
    m[p * PAGE_SIZE..(p + 1) * PAGE_SIZE]
  }

  ghost function SetPage(m: seq<byte>, p: nat, d: seq<byte>): (r: seq<byte>)
    requires (p + 1) * PAGE_SIZE <= |m| && |d| == PAGE_SIZE
    ensures |r| == |m|
  {
    Splice(m, p * PAGE_SIZE, d)
  }

  ghost function Zeros(): (d: seq<byte>)
    ensures |d| == PAGE_SIZE
  {
    seq(PAGE_SIZE, _ => 0)
  }

  lemma PageOfSetPage(m: seq<byte>, p: nat, d: seq<byte>, q: nat)
    requires (p + 1) * PAGE_SIZE <= |m| && (q + 1) * PAGE_SIZE <= |m| && |d| == PAGE_SIZE
    ensures Page(SetPage(m, p, d), q) == if q == p then d else Page(m, q)
  {
    var r := Page(SetPage(m, p, d), q);
    if q == p {
      assert forall k :: 0 <= k < PAGE_SIZE ==> r[k] == d[k];
    } else {
      assert forall k :: 0 <= k < PAGE_SIZE ==> r[k] == m[q * PAGE_SIZE + k];
    }
  }

  /** Storing one byte changes one page, and there one byte. */
  lemma PageOfUpdate(m: seq<byte>, a: nat, v: byte, q: nat)
    requires a < |m| && (q + 1) * PAGE_SIZE <= |m|
    ensures Page(m[a := v], q)
         == if q == a / PAGE_SIZE then Page(m, q)[a % PAGE_SIZE := v] else Page(m, q)
  {
    var r := Page(m[a := v], q);
    if q == a / PAGE_SIZE {
      assert r == Page(m, q)[a % PAGE_SIZE := v];
    } else {
      assert forall k :: 0 <= k < PAGE_SIZE ==> r[k] == m[q * PAGE_SIZE + k];
    }
  }

  lemma ByteOfPage(m: seq<byte>, a: nat)
    requires (a / PAGE_SIZE + 1) * PAGE_SIZE <= |m|
    ensures a < |m| && m[a] == Page(m, a / PAGE_SIZE)[a % PAGE_SIZE]
  {
  }

  lemma SliceOfPage(m: seq<byte>, a: nat, n: nat)
    requires (a / PAGE_SIZE + 1) * PAGE_SIZE <= |m| && a % PAGE_SIZE + n <= PAGE_SIZE
    ensures a + n <= |m| && m[a..a + n] == Page(m, a / PAGE_SIZE)[a % PAGE_SIZE..a % PAGE_SIZE + n]
  {
  }

  /** `a` and `b` hold the same bytes on every page outside `lost`. */
  ghost predicate Agree(a: seq<byte>, b: seq<byte>, lost: set<nat>)
    requires |a| == SPACE && |b| == SPACE
  {
    forall p: nat :: p < PAGE_COUNT && p !in lost ==> Page(a, p) == Page(b, p)
  }

  lemma AgreeByte(a: seq<byte>, b: seq<byte>, lost: set<nat>, x: nat)
    requires |a| == SPACE && |b| == SPACE && Agree(a, b, lost)
    requires x < SPACE && x / PAGE_SIZE !in lost
    ensures a[x] == b[x]
  {
    ByteOfPage(a, x);
    ByteOfPage(b, x);
  }

  lemma AgreeTrans(a: seq<byte>, b: seq<byte>, c: seq<byte>, l1: set<nat>, l2: set<nat>)
    requires |a| == |b| == |c| == SPACE && Agree(a, b, l2) && Agree(b, c, l1) && l1 <= l2
    ensures Agree(a, c, l2)
  {
  }

  lemma AgreeUpdate(a: seq<byte>, b: seq<byte>, lost: set<nat>, x: nat, v: byte)
    requires |a| == |b| == SPACE && Agree(a, b, lost) && x < SPACE
    ensures Agree(a[x := v], b[x := v], lost)
  {
    forall p: nat | p < PAGE_COUNT && p !in lost ensures Page(a[x := v], p) == Page(b[x := v], p) {
      PageOfUpdate(a, x, v, p);
      PageOfUpdate(b, x, v, p);
    }
  }

  lemma AgreeRefl(m: seq<byte>, lost: set<nat>)
    requires |m| == SPACE
    ensures Agree(m, m, lost)
  {
  }

  lemma {:induction false} AgreeSplice(a: seq<byte>, b: seq<byte>, lost: set<nat>, addr: nat, bs: seq<byte>)
    requires |a| == |b| == SPACE && Agree(a, b, lost) && addr + |bs| <= SPACE
    ensures Agree(Splice(a, addr, bs), Splice(b, addr, bs), lost)
    decreases |bs|
  {
    if bs == [] {
      assert Splice(a, addr, bs) == a && Splice(b, addr, bs) == b;
    } else {
      AgreeUpdate(a, b, lost, addr, bs[0]);
      AgreeSplice(a[addr := bs[0]], b[addr := bs[0]], lost, addr + 1, bs[1..]);
      assert Splice(a, addr, bs) == Splice(a[addr := bs[0]], addr + 1, bs[1..]);
      assert Splice(b, addr, bs) == Splice(b[addr := bs[0]], addr + 1, bs[1..]);
    }
  }

  /** No failure has hit a page that an access of 1, 2 or 4 bytes at `addr` touches. */
  ghost predicate Sound(lost: set<nat>, addr: nat, w: nat) {
    addr / PAGE_SIZE !in lost && (0 < w ==> (addr + w - 1) / PAGE_SIZE !in lost)
  }

  lemma SoundLoad(m: seq<byte>, was: seq<byte>, lost: set<nat>, addr: nat, w: nat)
    requires |m| == |was| == SPACE && Agree(m, was, lost) && addr % PAGE_SIZE + w <= PAGE_SIZE && addr < SPACE
    ensures addr + w <= SPACE
    ensures Sound(lost, addr, w) ==> m[addr..addr + w] == was[addr..addr + w]
  {
    SliceOfPage(m, addr, w);
    SliceOfPage(was, addr, w);
  }

  lemma AgreeExact(a: seq<byte>, b: seq<byte>)
    requires |a| == SPACE && |b| == SPACE && Agree(a, b, {})
    ensures a == b
  {
    forall x: nat | x < SPACE ensures a[x] == b[x] {
      AgreeByte(a, b, {}, x);
    }
  }

  // ----- The valid bitmap: bit p & 7 of byte p >> 3 -----

  function Mask(i: nat): bv8
    requires i < 8
  {
    [1, 2, 4, 8, 16, 32, 64, 128][i]
  }

  function ValidBit(bits: seq<bv8>, p: nat): bool
    requires p < 8 * |bits|
  {
    bits[p / 8] & Mask(p % 8) != 0
  }

  lemma MaskSame(b: bv8, i: nat)
    requires i < 8
    ensures (b | Mask(i)) & Mask(i) != 0
  {
  }

  lemma MaskOther(b: bv8, i: nat, j: nat)
    requires i < 8 && j < 8 && i != j
    ensures (b | Mask(i)) & Mask(j) == b & Mask(j)
  {
  }

  lemma SetBitOnly(bits: seq<bv8>, p: nat, q: nat)
    requires p < 8 * |bits| && q < 8 * |bits|
    ensures ValidBit(bits[p / 8 := bits[p / 8] | Mask(p % 8)], q) <==> q == p || ValidBit(bits, q)
  {
    if q == p {
      MaskSame(bits[p / 8], p % 8);
    } else if q / 8 == p / 8 {
      MaskOther(bits[p / 8], p % 8, q % 8);
    }
  }

  // ----- The cache value -----

  datatype Cache = Cache(
    ram: seq<byte>,    // ram_pages: slot s occupies bytes s*2048 ..
    tab: seq<nat>,     // cache_page
    dirty: seq<bool>,  // cache_dirty
    back: seq<byte>,   // the page file or the SPI PSRAM
    bits: seq<bv8>)    // backing_valid

  ghost predicate Shape(c: Cache) {
    && 0 < |c.tab| <= 96
    && |c.dirty| == |c.tab|
    && |c.ram| == |c.tab| * PAGE_SIZE
    && |c.back| == SPACE
    && |c.bits| == PAGE_COUNT / 8
    && forall s :: 0 <= s < |c.tab| && c.tab[s] != INVALID_PAGE ==> c.tab[s] < PAGE_COUNT
  }

  ghost function Slot(c: Cache, s: nat): (d: seq<byte>)
    requires Shape(c) && s < |c.tab|
    ensures |d| == PAGE_SIZE
  {
    Page(c.ram, s)
  }

  /** What backing_read delivers: zeros until the page was first written back. */
  ghost function View(c: Cache, p: nat): (d: seq<byte>)
    requires Shape(c) && p < PAGE_COUNT
    ensures |d| == PAGE_SIZE
  {
    if ValidBit(c.bits, p) then Page(c.back, p) else Zeros()
  }

  predicate Absent(tab: seq<nat>, p: nat) {
    forall s :: 0 <= s < |tab| ==> tab[s] != p
  }

  ghost predicate Distinct(tab: seq<nat>) {
    forall s, t :: 0 <= s < t < |tab| && tab[s] != INVALID_PAGE ==> tab[s] != tab[t]
  }

  /** A resident page is what its slot holds. */
  ghost predicate Mapped(c: Cache, m: seq<byte>)
    requires Shape(c) && |m| == SPACE
  {
    forall s :: 0 <= s < |c.tab| && c.tab[s] != INVALID_PAGE ==> Slot(c, s) == Page(m, c.tab[s])
  }

  /** Any other page is what the backing store would deliver. */
  ghost predicate Unmapped(c: Cache, m: seq<byte>)
    requires Shape(c) && |m| == SPACE
  {
    forall p: nat :: p < PAGE_COUNT && Absent(c.tab, p) ==> Page(m, p) == View(c, p)
  }

  /** A clean slot equals its backing view. */
  ghost predicate Clean(c: Cache, lost: set<nat>)
    requires Shape(c)
  {
    forall s :: 0 <= s < |c.tab| && c.tab[s] != INVALID_PAGE && !c.dirty[s] && c.tab[s] !in lost ==>
      Slot(c, s) == View(c, c.tab[s])
  }

  /**
   The coupling of the cache with the flat memory `m` it stands for.  `lost`
   are the pages a failed backing transfer has hit; a clean slot of such a page
   may differ from its backing view.
   */
  ghost predicate Coherent(c: Cache, m: seq<byte>, lost: set<nat>) {
    && Shape(c)
    && |m| == SPACE
    && Distinct(c.tab)
    && Mapped(c, m)
    && Unmapped(c, m)
    && Clean(c, lost)
  }

  /** backing_write of slot `s`: the page and its bit, or whatever a torn transfer leaves. */
  ghost function WriteBack(c: Cache, s: nat, ok: bool, torn: seq<byte>): (r: Cache)
    requires Shape(c) && s < |c.tab| && c.tab[s] != INVALID_PAGE && |torn| == PAGE_SIZE
    ensures Shape(r)
  {
    var p := c.tab[s];
    if ok then
      c.(back := SetPage(c.back, p, Slot(c, s)), bits := c.bits[p / 8 := c.bits[p / 8] | Mask(p % 8)])
    else
      c.(back := SetPage(c.back, p, torn))
  }

  lemma WriteBackView(c: Cache, s: nat, ok: bool, torn: seq<byte>, q: nat)
    requires Shape(c) && s < |c.tab| && c.tab[s] != INVALID_PAGE && |torn| == PAGE_SIZE && q < PAGE_COUNT
    ensures q != c.tab[s] ==> View(WriteBack(c, s, ok, torn), q) == View(c, q)
    ensures q == c.tab[s] && ok ==> View(WriteBack(c, s, ok, torn), q) == Slot(c, s)
  {
    var p := c.tab[s];
    PageOfSetPage(c.back, p, if ok then Slot(c, s) else torn, q);
    SetBitOnly(c.bits, p, q);
  }

  // ----- Steps -----

  /** At start every slot is empty and nothing was ever written back: the memory is all zeros. */
  lemma Initial(c: Cache, m: seq<byte>)
    requires Shape(c) && |m| == SPACE
    requires forall s :: 0 <= s < |c.tab| ==> c.tab[s] == INVALID_PAGE
    requires forall i :: 0 <= i < |c.bits| ==> c.bits[i] == 0
    requires forall i :: 0 <= i < |m| ==> m[i] == 0
    ensures Coherent(c, m, {})
  {
    forall p: nat | p < PAGE_COUNT ensures Page(m, p) == View(c, p) {
      assert !ValidBit(c.bits, p) by { assert 0 & Mask(p % 8) == 0; }
    }
  }

  lemma HitWrite(c: Cache, m: seq<byte>, lost: set<nat>, s: nat)
    requires Coherent(c, m, lost) && s < |c.tab|
    ensures Coherent(c.(dirty := c.dirty[s := true]), m, lost)
  {
    var c' := c.(dirty := c.dirty[s := true]);
    assert forall p: nat :: p < PAGE_COUNT ==> View(c', p) == View(c, p);
    assert forall t :: 0 <= t < |c.tab| ==> Slot(c', t) == Slot(c, t);
  }

  /** A store through a pointer into a dirty slot is the same store on the flat memory. */
  lemma StoreThrough(c: Cache, m: seq<byte>, lost: set<nat>, s: nat, off: nat, v: byte)
    requires Coherent(c, m, lost)
    requires s < |c.tab| && c.tab[s] != INVALID_PAGE && c.dirty[s] && off < PAGE_SIZE
    ensures Coherent(c.(ram := c.ram[s * PAGE_SIZE + off := v]), m[c.tab[s] * PAGE_SIZE + off := v], lost)
  {
    var c' := c.(ram := c.ram[s * PAGE_SIZE + off := v]);
    var m' := m[c.tab[s] * PAGE_SIZE + off := v];
    assert forall p: nat :: p < PAGE_COUNT ==> View(c', p) == View(c, p);
    forall t | 0 <= t < |c.tab|
      ensures Slot(c', t) == if t == s then Slot(c, s)[off := v] else Slot(c, t)
    {
      PageOfUpdate(c.ram, s * PAGE_SIZE + off, v, t);
    }
    forall p: nat | p < PAGE_COUNT
      ensures Page(m', p) == if p == c.tab[s] then Page(m, p)[off := v] else Page(m, p)
    {
      PageOfUpdate(m, c.tab[s] * PAGE_SIZE + off, v, p);
    }
  }

  /** The same for a run of bytes inside one slot. */
  lemma {:induction false} StoreBlock(c: Cache, m: seq<byte>, lost: set<nat>, s: nat, off: nat, bs: seq<byte>)
    requires Coherent(c, m, lost)
    requires s < |c.tab| && c.tab[s] != INVALID_PAGE && c.dirty[s] && off + |bs| <= PAGE_SIZE
    ensures Coherent(c.(ram := Splice(c.ram, s * PAGE_SIZE + off, bs)), Splice(m, c.tab[s] * PAGE_SIZE + off, bs), lost)
    decreases |bs|
  {
    hide Mapped, Unmapped, Clean, Distinct;
    var i, a := s * PAGE_SIZE + off, c.tab[s] * PAGE_SIZE + off;
    if bs == [] {
      assert Splice(c.ram, i, bs) == c.ram && Splice(m, a, bs) == m;
      assert c.(ram := Splice(c.ram, i, bs)) == c;
    } else {
      StoreThrough(c, m, lost, s, off, bs[0]);
      var c1, m1 := c.(ram := c.ram[i := bs[0]]), m[a := bs[0]];
      StoreBlock(c1, m1, lost, s, off + 1, bs[1..]);
      assert Splice(c1.ram, i + 1, bs[1..]) == Splice(c.ram, i, bs);
      assert Splice(m1, a + 1, bs[1..]) == Splice(m, a, bs);
      assert c1.(ram := Splice(c.ram, i, bs)) == c.(ram := Splice(c.ram, i, bs));
    }
  }

  lemma MappedByte(c: Cache, m: seq<byte>, lost: set<nat>, t: nat, k: nat)
    requires Coherent(c, m, lost) && t < |c.tab| && c.tab[t] != INVALID_PAGE && k < PAGE_SIZE
    ensures c.ram[t * PAGE_SIZE + k] == m[c.tab[t] * PAGE_SIZE + k]
  {
    assert Slot(c, t)[k] == Page(m, c.tab[t])[k];
  }

  lemma CopyNothing(m: seq<byte>, d: nat, s: nat)
    requires d <= |m| && s <= |m|
    ensures ForwardCopy(m, d, s, 0) == m
  {
  }

  /**
   A forward copy done inside ram_pages, from slot `t` to dirty slot `s`, is the
   forward copy between the guest addresses those slots stand for.
   */
  lemma {:induction false} CopyBetweenSlots(c: Cache, m: seq<byte>, lost: set<nat>,
                                           s: nat, off: nat, t: nat, toff: nat, n: nat)
    requires Coherent(c, m, lost)
    requires s < |c.tab| && c.tab[s] != INVALID_PAGE && c.dirty[s] && off + n <= PAGE_SIZE
    requires t < |c.tab| && c.tab[t] != INVALID_PAGE && toff + n <= PAGE_SIZE
    ensures Coherent(c.(ram := ForwardCopy(c.ram, s * PAGE_SIZE + off, t * PAGE_SIZE + toff, n)),
                     ForwardCopy(m, c.tab[s] * PAGE_SIZE + off, c.tab[t] * PAGE_SIZE + toff, n), lost)
  {
    hide Mapped, Unmapped, Clean, Distinct, ForwardCopy;
    var i, j := s * PAGE_SIZE + off, t * PAGE_SIZE + toff;
    var a, b := c.tab[s] * PAGE_SIZE + off, c.tab[t] * PAGE_SIZE + toff;
    if n == 0 {
      CopyNothing(c.ram, i, j);
      CopyNothing(m, a, b);
      assert c.(ram := ForwardCopy(c.ram, i, j, n)) == c;
    } else {
      ByteStep(c.ram, i, j, n - 1);
      ByteStep(m, a, b, n - 1);
      CopyBetweenSlots(c, m, lost, s, off, t, toff, n - 1);
      var c1, m1 := c.(ram := ForwardCopy(c.ram, i, j, n - 1)), ForwardCopy(m, a, b, n - 1);
      MappedByte(c1, m1, lost, t, toff + n - 1);
      StoreThrough(c1, m1, lost, s, off + n - 1, c1.ram[j + n - 1]);
      assert c1.(ram := c1.ram[i + n - 1 := c1.ram[j + n - 1]]) == c.(ram := ForwardCopy(c.ram, i, j, n));
    }
  }

  /** A write-back, successful or torn, of a dirty slot leaves the flat memory as it is. */
  lemma FlushSlot(c: Cache, m: seq<byte>, lost: set<nat>, s: nat, ok: bool, torn: seq<byte>)
    requires Coherent(c, m, lost) && |torn| == PAGE_SIZE
    requires s < |c.tab| && c.tab[s] != INVALID_PAGE && c.dirty[s]
    ensures var w := WriteBack(c, s, ok, torn);
            Coherent(if ok then w.(dirty := w.dirty[s := false]) else w, m, lost)
  {
    var w := WriteBack(c, s, ok, torn);
    var c' := if ok then w.(dirty := w.dirty[s := false]) else w;
    forall q: nat | q < PAGE_COUNT
      ensures q != c.tab[s] ==> View(c', q) == View(c, q)
      ensures q == c.tab[s] && ok ==> View(c', q) == Slot(c, s)
    {
      WriteBackView(c, s, ok, torn, q);
      assert View(c', q) == View(w, q);
    }
    assert forall t :: 0 <= t < |c.tab| ==> Slot(c', t) == Slot(c, t);
    assert Mapped(c', m) by { hide Unmapped, Clean, View; }
    assert Unmapped(c', m) by {
      hide Mapped, Clean, View, Slot;
      assert c'.tab[s] == c.tab[s];
    }
    assert Clean(c', lost) by {
      hide Mapped, Unmapped, View, Slot;
      assert forall t :: 0 <= t < |c.tab| && t != s && c.tab[t] != INVALID_PAGE ==> c.tab[t] != c.tab[s];
    }
  }

  /** The victim slot after its write-back (if one was due). */
  ghost function Evicted(c: Cache, s: nat, ok: bool, torn: seq<byte>): (r: Cache)
    requires Shape(c) && s < |c.tab| && |torn| == PAGE_SIZE
    ensures Shape(r)
  {
    if c.tab[s] != INVALID_PAGE && c.dirty[s] then WriteBack(c, s, ok, torn) else c
  }

  /** The victim slot reloaded with page `p`. */
  ghost function Loaded(c: Cache, s: nat, p: nat, data: seq<byte>, write: bool): (r: Cache)
    requires Shape(c) && s < |c.tab| && p < PAGE_COUNT && |data| == PAGE_SIZE
    ensures Shape(r)
  {
    c.(ram := SetPage(c.ram, s, data), tab := c.tab[s := p], dirty := c.dirty[s := write])
  }

  /** The flat memory a miss leaves: unchanged unless the victim or the new page is lost. */
  ghost function AfterMiss(c: Cache, m: seq<byte>, s: nat, p: nat, data: seq<byte>): (r: seq<byte>)
    requires Shape(c) && |m| == SPACE && s < |c.tab| && p < PAGE_COUNT && |data| == PAGE_SIZE
    ensures |r| == SPACE
  {
    var m1 := if c.tab[s] != INVALID_PAGE then SetPage(m, c.tab[s], View(c, c.tab[s])) else m;
    SetPage(m1, p, data)
  }

  /** First half of a miss: the victim slot is emptied. */
  lemma EvictStep(c: Cache, m: seq<byte>, lost: set<nat>, s: nat, ok: bool, torn: seq<byte>)
    requires Coherent(c, m, lost) && s < |c.tab| && c.tab[s] != INVALID_PAGE && |torn| == PAGE_SIZE
    ensures var e := Evicted(c, s, ok, torn);
            var v := c.tab[s];
            var m' := SetPage(m, v, View(e, v));
            && Coherent(e.(tab := e.tab[s := INVALID_PAGE]), m', EvictLost(c, lost, s, ok))
            && Agree(m', m, EvictLost(c, lost, s, ok))
  {
    hide SetPage, Page, Splice;
    var e := Evicted(c, s, ok, torn);
    var v := c.tab[s];
    var m' := SetPage(m, v, View(e, v));
    var c' := e.(tab := e.tab[s := INVALID_PAGE]);
    EvictedViews(c, s, ok, torn);
    forall q: nat | q < PAGE_COUNT
      ensures View(c', q) == View(e, q)
      ensures Page(m', q) == if q == v then View(e, v) else Page(m, q)
    {
      PageOfSetPage(m, v, View(e, v), q);
    }
    forall t | 0 <= t < |c.tab| ensures Slot(c', t) == Slot(c, t) {}
    assert Mapped(c', m');
    forall q: nat | q < PAGE_COUNT && Absent(c'.tab, q) ensures Page(m', q) == View(c', q) {
      if q != v {
        forall t | 0 <= t < |c.tab| ensures c.tab[t] != q { if t != s { assert c'.tab[t] != q; } }
      }
    }
    assert Clean(c', EvictLost(c, lost, s, ok));
  }

  ghost function EvictLost(c: Cache, lost: set<nat>, s: nat, ok: bool): set<nat>
    requires Shape(c) && s < |c.tab|
  {
    if c.tab[s] != INVALID_PAGE && c.dirty[s] && !ok then lost + {c.tab[s]} else lost
  }

  /** Second half of a miss: the empty slot is loaded. */
  lemma LoadStep(c: Cache, m: seq<byte>, lost: set<nat>, s: nat, p: nat, write: bool, ok: bool)
    requires Coherent(c, m, lost) && s < |c.tab| && c.tab[s] == INVALID_PAGE
    requires p < PAGE_COUNT && Absent(c.tab, p)
    ensures var data := if ok then View(c, p) else Zeros();
            var lost' := if ok then lost else lost + {p};
            var m' := SetPage(m, p, data);
            Coherent(Loaded(c, s, p, data, write), m', lost') && Agree(m', m, lost')
  {
    var data := if ok then View(c, p) else Zeros();
    var lost' := if ok then lost else lost + {p};
    var m' := SetPage(m, p, data);
    var c' := Loaded(c, s, p, data, write);
    forall q: nat | q < PAGE_COUNT
      ensures View(c', q) == View(c, q)
      ensures Page(m', q) == if q == p then data else Page(m, q)
    {
      PageOfSetPage(m, p, data, q);
    }
    forall t | 0 <= t < |c.tab| ensures Slot(c', t) == if t == s then data else Slot(c, t) {
      PageOfSetPage(c.ram, s, data, t);
    }
    assert Mapped(c', m');
    forall q: nat | q < PAGE_COUNT && Absent(c'.tab, q) ensures Page(m', q) == View(c', q) {
      assert c'.tab[s] != q;
      forall t | 0 <= t < |c.tab| ensures c.tab[t] != q { if t != s { assert c'.tab[t] != q; } }
    }
    assert Clean(c', lost');
  }

  /**
   The whole miss path: evict the victim, load the page.  A transfer that fails
   costs at most the page it was for; every other page keeps its bytes.
   */
  lemma MissStep(c: Cache, m: seq<byte>, lost: set<nat>, s: nat, p: nat,
                 write: bool, writeOk: bool, readOk: bool, torn: seq<byte>)
    requires Coherent(c, m, lost) && s < |c.tab| && p < PAGE_COUNT && Absent(c.tab, p) && |torn| == PAGE_SIZE
    ensures var e := Evicted(c, s, writeOk, torn);
            var data := if readOk then View(e, p) else Zeros();
            var lost' := MissLost(c, lost, s, p, writeOk, readOk);
            var m' := AfterMiss(e, m, s, p, data);
            && Coherent(Loaded(e, s, p, data, write), m', lost')
            && Agree(m', m, lost')
  {
    var e := Evicted(c, s, writeOk, torn);
    var data := if readOk then View(e, p) else Zeros();
    var lost' := MissLost(c, lost, s, p, writeOk, readOk);
    if c.tab[s] == INVALID_PAGE {
      LoadStep(c, m, lost, s, p, write, readOk);
    } else {
      EvictStep(c, m, lost, s, writeOk, torn);
      var c1, m1 := e.(tab := e.tab[s := INVALID_PAGE]), SetPage(m, c.tab[s], View(e, c.tab[s]));
      LoadStep(c1, m1, EvictLost(c, lost, s, writeOk), s, p, write, readOk);
      assert View(c1, p) == View(e, p);
      assert Loaded(c1, s, p, data, write) == Loaded(e, s, p, data, write) by {
        assert c1.tab[s := p] == e.tab[s := p];
      }
      AgreeTrans(SetPage(m1, p, data), m1, m, EvictLost(c, lost, s, writeOk), lost');
    }
  }

  ghost function MissLost(c: Cache, lost: set<nat>, s: nat, p: nat, writeOk: bool, readOk: bool): set<nat>
    requires Shape(c) && s < |c.tab|
  {
    var l := EvictLost(c, lost, s, writeOk);
    if readOk then l else l + {p}
  }

  /** Eviction only changes the backing view of the victim's page, and if that write
      succeeds or was not needed the view is exactly what the slot held. */
  lemma EvictedViews(c: Cache, s: nat, ok: bool, torn: seq<byte>)
    requires Shape(c) && s < |c.tab| && |torn| == PAGE_SIZE
    ensures var e := Evicted(c, s, ok, torn);
            forall q: nat :: q < PAGE_COUNT ==>
              && (q != c.tab[s] ==> View(e, q) == View(c, q))
              && (q == c.tab[s] && c.dirty[s] && ok ==> View(e, q) == Slot(c, s))
              && (q == c.tab[s] && !c.dirty[s] ==> View(e, q) == View(c, q))
  {
    forall q: nat | q < PAGE_COUNT
      ensures var e := Evicted(c, s, ok, torn);
              && (q != c.tab[s] ==> View(e, q) == View(c, q))
              && (q == c.tab[s] && c.dirty[s] && ok ==> View(e, q) == Slot(c, s))
              && (q == c.tab[s] && !c.dirty[s] ==> View(e, q) == View(c, q))
    {
      if c.tab[s] != INVALID_PAGE && c.dirty[s] { WriteBackView(c, s, ok, torn, q); }
    }
  }

  /** After a flush has left every slot clean, the backing store alone is the memory. */
  lemma FlushedMeansBacked(c: Cache, m: seq<byte>, lost: set<nat>, p: nat)
    requires Coherent(c, m, lost) && p < PAGE_COUNT && p !in lost
    requires forall s :: 0 <= s < |c.tab| && c.tab[s] != INVALID_PAGE ==> !c.dirty[s]
    ensures View(c, p) == Page(m, p)
  {
    if !Absent(c.tab, p) {
      var s :| 0 <= s < |c.tab| && c.tab[s] == p;
    }
  }
}
