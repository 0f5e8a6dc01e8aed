/**
 What an instruction fetch depends on and what it should answer: the remembered
 code page, the 16-byte buffer, and a fresh walk as the reference.
 */
module FetchPage {
  import opened GuestMemory
  import opened PageWalk
  import opened Arith
  import opened Wrappers

  /** The invalid page and the invalid buffer tag; both are numbers like any other. */
  const NONE: nat := 0xFFFF_FFFF

  /** The state at a fetch. */
  datatype Snap = Snap(
    mem: seq<byte>, pg: bool, cr3: word, wp: bool, user: bool,
    laddr: word,        // CS base + next_ip
    ifLaddr: nat,       // ifetch.laddr
    ifXaddr: nat,       // ifetch.xaddr
    base: nat,          // prefetch_base
    buf: seq<byte>)     // prefetch

  predicate IsShape(s: Snap) {
    && |s.mem| == M32 && |s.buf| == 16
    && s.ifXaddr % FRAME == 0 && s.ifXaddr < M32
    && (s.ifLaddr == NONE || (s.ifLaddr % FRAME == 0 && s.ifLaddr < M32))
    && (s.base == NONE || (s.base % 16 == 0 && s.base < M32))
  }

  // ----- The tests of the fast paths -----

  /** The test for the remembered page; the limit leaves room for `size` bytes. */
  predicate PageHit(s: Snap, size: nat)
    requires 0 < size <= 4
  {
    Xor(s.laddr, s.ifLaddr) < FRAME - size + 1
  }

  /** The test for a buffer hit, in 32-bit arithmetic. */
  predicate Hit(paddr: nat, base: nat) {
    (paddr as int - base as int) % 0x1_0000_0000 < 16
  }

  /** The address the remembered page gives. */
  function Served(s: Snap): (a: nat) { Xor(s.ifXaddr, s.laddr) }

  /** It is the right test for a real tag, and for the invalid one except at the ends of memory. */
  lemma HitMeans(paddr: nat, base: nat)
    requires paddr < M32 && base < M32
    ensures base % 16 == 0 ==> (Hit(paddr, base) <==> base <= paddr < base + 16)
    ensures base == NONE ==> (Hit(paddr, base) <==> paddr < 15 || paddr == M32 - 1)
  {
    var d := paddr as int - base as int;
    if d >= 0 { DivModUnique(d, M32, 0, d); } else { DivModUnique(d, M32, -1, d + M32); }
  }

  /** A real page is hit by its own addresses only; the invalid page is hit by the last one. */
  lemma PageHitMeans(s: Snap, size: nat)
    requires IsShape(s) && 0 < size <= 4
    ensures s.ifLaddr != NONE ==>
              (PageHit(s, size) <==> s.laddr / FRAME == s.ifLaddr / FRAME && s.laddr % FRAME + size <= FRAME)
    ensures s.ifLaddr == NONE ==> (PageHit(s, size) <==> s.laddr >= M32 - FRAME + size - 1)
  {
    hide Xor;
    if s.ifLaddr == NONE {
      AllOnes(s.laddr);
    } else {
      XorComm(s.laddr, s.ifLaddr);
      XorPage(s.ifLaddr, s.laddr);
      XorIsZero(s.ifLaddr / FRAME, s.laddr / FRAME);
    }
  }

  lemma AllOnes(a: word)
    ensures Xor(a, NONE) == NONE - a
  {
    hide Xor;
    Powers();
    XorOnes(a, 32);
  }

  /** The served bytes stay inside one frame, at the offset of the address. */
  lemma ServedFits(s: Snap, size: nat)
    requires IsShape(s) && 0 < size <= 4 && PageHit(s, size) && s.laddr + size <= M32
    ensures Served(s) % FRAME == s.laddr % FRAME && s.laddr % FRAME + size <= FRAME
    ensures Served(s) + size <= M32
  {
    hide Xor, PageHit;
    PageHitMeans(s, size);
    XorPage(s.ifXaddr, s.laddr);
    Powers();
    XorBound(s.ifXaddr / FRAME, s.laddr / FRAME, 20);
  }

  // ----- What a hit delivers -----

  /** How many of the `size` bytes at offset `off` of a block are taken from the buffer. */
  function FromBuffer(off: nat, size: nat): (n: nat)
    ensures n <= size
  {
    if off + size <= 16 then size else if size == 2 then 1 else 0
  }

  predicate Fits(s: Snap, size: nat) {
    IsShape(s) && (size == 1 || size == 2 || size == 4) && PageHit(s, size) && s.laddr + size <= M32
  }

  /** Byte `i` of a page hit: from the buffer if the tag claims the block, else from memory. */
  function ServedByte(s: Snap, size: nat, i: nat): (b: byte)
    requires Fits(s, size) && i < size
  {
    ServedFits(s, size);
    var off := Served(s) % 16;
    if Hit(Served(s), s.base) && i < FromBuffer(off, size) then s.buf[off + i] else s.mem[Served(s) + i]
  }

  function ServedBytes(s: Snap, size: nat): (bs: seq<byte>)
    requires Fits(s, size)
  {
    seq(size, i requires 0 <= i < size => ServedByte(s, size, i))
  }

  function ServedAddrs(s: Snap, size: nat): (ats: seq<nat>) {
    seq(size, i requires 0 <= i < size => After(Served(s), i))
  }

  function After(a: nat, i: nat): (b: nat) { a + i }

  // ----- What it should deliver -----

  /** A fresh walk for byte `i`; without paging an address is its own translation. */
  function Answer(s: Snap, i: nat): Outcome
    requires |s.mem| == M32 && s.laddr + i < M32
  {
    if s.pg then Translate(s.mem, s.cr3, s.wp, false, s.user, s.laddr + i) else Ok(s.laddr + i)
  }

  /** The bytes are those at the individually walked addresses, in the memory `now`. */
  ghost predicate Right(s: Snap, now: seq<byte>, ats: seq<nat>, bs: seq<byte>)
    requires |s.mem| == |now| == M32
  {
    && |ats| == |bs| && s.laddr + |bs| <= M32
    && forall i :: 0 <= i < |bs| ==> Answer(s, i) == Ok(ats[i]) && ats[i] < M32 && now[ats[i]] == bs[i]
  }

  /** The fetch faults, with `f`, at its first byte that the walk refuses. */
  ghost predicate FaultsFirst(s: Snap, size: nat, f: Outcome)
    requires |s.mem| == M32
  {
    exists i: nat :: i < size && FaultsAt(s, i, f)
  }

  ghost predicate FaultsAt(s: Snap, i: nat, f: Outcome)
    requires |s.mem| == M32
  {
    s.laddr + i < M32 && f.Fault? && Answer(s, i) == f && forall j: nat :: j < i ==> Answer(s, j).Ok?
  }

  /** What a fetch that starts from nothing would remember for the page, if the walk allows it. */
  function FreshXaddr(s: Snap): (x: Option<nat>)
    requires |s.mem| == M32
  {
    if !s.pg then Some(0)
    else
      match Walk(s.mem, s.cr3, s.laddr / FRAME)
      case Unmapped => None
      case Page(frame, us, _) => if s.user && !us then None else Some(Xor(frame, s.laddr / FRAME * FRAME))
  }

  /** Whatever the hit takes from the buffer is still in memory. */
  ghost predicate BytesFresh(s: Snap, size: nat)
    requires Fits(s, size)
  {
    forall i: nat :: i < size ==> ServedByte(s, size, i) == MemByte(s, size, i)
  }

  function MemByte(s: Snap, size: nat, i: nat): (b: byte)
    requires Fits(s, size) && i < size
  {
    ServedFits(s, size);
    s.mem[Served(s) + i]
  }

  /** The remembered page gives the walk's address exactly when it is what the walk would store. */
  lemma ServedIsAnswer(s: Snap, size: nat, i: nat)
    requires Fits(s, size) && i < size
    ensures Answer(s, i) == Ok(Served(s) + i) <==> FreshXaddr(s) == Some(s.ifXaddr)
  {
    hide Xor, Walk, PageHit;
    ServedFits(s, size);
    XorCancels(s.ifXaddr, s.laddr);
    if !s.pg {
      XorCancels(0, s.laddr);
      XorZeroLeft(s.laddr);
    } else {
      var lpgno := s.laddr / FRAME;
      DivModUnique(s.laddr + i, FRAME, lpgno, s.laddr % FRAME + i);
      var w := Walk(s.mem, s.cr3, lpgno);
      if w.Page? {
        FrameOfWalk(s.mem, s.cr3, lpgno);
        XorFrame(w.frame, lpgno, s.laddr);
        XorCancels(Xor(w.frame, lpgno * FRAME), s.laddr);
      }
    }
  }

  lemma FrameOfWalk(m: seq<byte>, cr3: word, lpgno: nat)
    requires |m| == M32 && lpgno < 0x10_0000 && Walk(m, cr3, lpgno).Page?
    ensures Walk(m, cr3, lpgno).frame % FRAME == 0 && Walk(m, cr3, lpgno).frame + FRAME <= M32
  {
    hide Dword, PteAddr, Present;
    var e := Dword(m, PteAddr(m, cr3, lpgno));
    DivModUnique(FrameOf(e), FRAME, e / FRAME, 0);
  }

  /**
   In every state whatever, a page hit is right exactly when the remembered page is
   what a fresh walk would have remembered and the buffer has not been overtaken.
   */
  lemma HitRightIff(s: Snap, size: nat)
    requires Fits(s, size)
    ensures Right(s, s.mem, ServedAddrs(s, size), ServedBytes(s, size)) <==>
            FreshXaddr(s) == Some(s.ifXaddr) && BytesFresh(s, size)
  {
    hide Xor, PageHit, Answer, FreshXaddr, ServedByte;
    ServedFits(s, size);
    var ats, bs := ServedAddrs(s, size), ServedBytes(s, size);
    forall i: nat | i < size
      ensures (Answer(s, i) == Ok(ats[i]) <==> FreshXaddr(s) == Some(s.ifXaddr))
      ensures ats[i] < M32 && bs[i] == ServedByte(s, size, i) && s.mem[ats[i]] == MemByte(s, size, i)
    {
      ServedIsAnswer(s, size, i);
    }
    if Right(s, s.mem, ats, bs) {
      assert Answer(s, 0) == Ok(ats[0]);
      forall i: nat | i < size ensures ServedByte(s, size, i) == MemByte(s, size, i) {
        assert s.mem[ats[i]] == bs[i];
      }
    }
  }

  // ----- The invariant and the exceptions it leaves -----

  /** The remembered page is still what the tables say about it; the privilege is not part of it. */
  ghost predicate Remembered(s: Snap)
    requires |s.mem| == M32
  {
    s.ifLaddr < M32 && s.ifLaddr != NONE ==>
      if s.pg then
        var w := Walk(s.mem, s.cr3, s.ifLaddr / FRAME);
        w.Page? && s.ifXaddr == Xor(w.frame, s.ifLaddr)
      else s.ifXaddr == 0
  }

  /** The buffer is the block its tag names. */
  ghost predicate Buffered(s: Snap) {
    s.base != NONE ==>
      s.base + 16 <= |s.mem| && |s.buf| == 16 && forall i :: 0 <= i < 16 ==> s.buf[i] == s.mem[s.base + i]
  }

  ghost predicate Coherent(s: Snap) {
    IsShape(s) && Remembered(s) && Buffered(s)
  }

  /** User code fetches from a remembered page that only the supervisor may use. */
  predicate RingTrap(s: Snap)
    requires |s.mem| == M32
  {
    s.ifLaddr != NONE && s.pg && s.user && var w := Walk(s.mem, s.cr3, s.laddr / FRAME); w.Page? && !w.us
  }

  /** No page is remembered, yet the last linear page is served from the old translation. */
  predicate LastPage(s: Snap)
    requires |s.mem| == M32
  {
    s.ifLaddr == NONE && FreshXaddr(s) != Some(s.ifXaddr)
  }

  /** The invalid tag claims the block, and what the buffer holds differs from memory. */
  ghost predicate StaleTag(s: Snap, size: nat)
    requires Fits(s, size)
  {
    && s.base == NONE && (Served(s) < 15 || Served(s) == M32 - 1)
    && exists i: nat :: i < size && ServedByte(s, size, i) != MemByte(s, size, i)
  }

  ghost predicate Excepted(s: Snap, size: nat)
    requires |s.mem| == M32
  {
    Fits(s, size) && (RingTrap(s) || LastPage(s) || StaleTag(s, size))
  }

  /** In a coherent state the three exceptions are all there is. */
  lemma CoherentHitIff(s: Snap, size: nat)
    requires Coherent(s) && Fits(s, size)
    ensures Right(s, s.mem, ServedAddrs(s, size), ServedBytes(s, size)) <==> !Excepted(s, size)
  {
    hide Xor, PageHit, Walk, Right, ServedBytes, ServedAddrs;
    HitRightIff(s, size);
    ServedFits(s, size);
    HitMeans(Served(s), s.base);
    CoherentPage(s, size);
    if s.base != NONE {
      forall i: nat | i < size ensures ServedByte(s, size, i) == MemByte(s, size, i) {
        CoherentByte(s, size, i);
      }
    }
    if s.base == NONE && !Hit(Served(s), s.base) {
      assert BytesFresh(s, size);
    }
  }

  lemma CoherentPage(s: Snap, size: nat)
    requires Coherent(s) && Fits(s, size)
    ensures FreshXaddr(s) == Some(s.ifXaddr) <==> !RingTrap(s) && !LastPage(s)
  {
    hide Xor, PageHit, Walk;
    if s.ifLaddr != NONE {
      PageHitMeans(s, size);
    }
  }

  /** A hit on a real tag takes the block's own bytes. */
  lemma CoherentByte(s: Snap, size: nat, i: nat)
    requires Coherent(s) && Fits(s, size) && s.base != NONE && i < size
    ensures ServedByte(s, size, i) == MemByte(s, size, i)
  {
    hide Xor, PageHit, Walk;
    ServedFits(s, size);
    HitMeans(Served(s), s.base);
    if Hit(Served(s), s.base) {
      var off := Served(s) - s.base;
      DivModUnique(Served(s), 16, s.base / 16, off);
    }
  }
}
