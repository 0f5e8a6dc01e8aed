/**
 The software TLB of the 386 core and the accesses that go through it, updated in
 place.  The reference is a fresh walk for every byte (module PageWalk).  The TLB does
 not notice stores to page tables, so an entry is right unless the guest has edited
 its page's tables since the entry was loaded; a clear makes everything right again.
 */
module Mmu {
  import opened GuestMemory
  import opened Arith
  import opened PageWalk

  const TLB_SIZE: nat := 512
  const INVALID: nat := 0xFFFF_FFFF

  /** pte_lookup[wp][us * 2 + rw][user][write]: true means fault. */
  const PTE_LOOKUP: seq<seq<seq<seq<bool>>>> := [
    [ [[false, false], [true, true]],
      [[false, false], [true, true]],
      [[false, false], [false, true]],
      [[false, false], [false, false]] ],
    [ [[false, true], [true, true]],
      [[false, false], [true, true]],
      [[false, true], [false, true]],
      [[false, false], [false, false]] ] ]

  function B(b: bool): nat { if b then 1 else 0 }

  function Lookup(wp: bool, us: bool, rw: bool): seq<seq<bool>> {
    PTE_LOOKUP[B(wp)][2 * B(us) + B(rw)]
  }

  /** The table is the protection rule. */
  lemma LookupIsForbidden(wp: bool, us: bool, rw: bool, user: bool, write: bool)
    ensures |Lookup(wp, us, rw)| == 2 && |Lookup(wp, us, rw)[B(user)]| == 2
    ensures Lookup(wp, us, rw)[B(user)][B(write)] == Forbidden(wp, us, rw, user, write)
  {
  }

  datatype Entry = Entry(lpgno: nat, xaddr: nat, lookup: seq<seq<bool>>, ppte: nat)

  /** An entry is empty, or says about its page what a fresh walk says. */
  predicate EntryOk(e: Entry, k: nat, m: seq<byte>, cr3: word, wp: bool)
    requires |m| == M32
  {
    e.lpgno == INVALID ||
    (&& e.lpgno < 0x10_0000 && e.lpgno % TLB_SIZE == k
     && var w := Walk(m, cr3, e.lpgno);
        && w.Page?
        && e.xaddr == Xor(w.frame, e.lpgno * FRAME)
        && e.lookup == Lookup(wp, w.us, w.rw)
        && e.ppte == PteAddr(m, cr3, e.lpgno))
  }

  /** Every entry is right, but for pages in `edited`. */
  ghost predicate TlbOk(t: seq<Entry>, m: seq<byte>, cr3: word, wp: bool, edited: set<nat>)
    requires |m| == M32
  {
    |t| == TLB_SIZE && forall k :: 0 <= k < TLB_SIZE ==>
      EntryOk(t[k], k, m, cr3, wp) || (t[k].lpgno in edited && t[k].lpgno % TLB_SIZE == k)
  }

  /** The walk of page `p` differs between two memories. */
  predicate Edited(was: seq<byte>, now: seq<byte>, cr3: word, p: nat)
    requires |was| == |now| == M32 && p < 0x10_0000
  {
    Walk(was, cr3, p) != Walk(now, cr3, p) || PteAddr(was, cr3, p) != PteAddr(now, cr3, p)
  }


  /** The pages between two memories that were edited. */
  ghost function Edits(was: seq<byte>, now: seq<byte>, cr3: word): (pages: set<nat>)
    requires |was| == |now| == M32
  {
    set p: nat | p < 0x10_0000 && Edited(was, now, cr3, p)
  }

  lemma EntrySurvives(e: Entry, k: nat, m: seq<byte>, n: seq<byte>, cr3: word, wp: bool)
    requires SameEntries(m, n) && |m| == |n| == M32 && EntryOk(e, k, m, cr3, wp)
    ensures EntryOk(e, k, n, cr3, wp)
  {
    hide SameEntries, Walk, PteAddr;
    if e.lpgno != INVALID { SameWalk(m, n, cr3, e.lpgno); }
  }

  /** Accessed and dirty updates never invalidate an entry. */
  lemma TlbSurvives(t: seq<Entry>, m: seq<byte>, n: seq<byte>, cr3: word, wp: bool, edited: set<nat>)
    requires SameEntries(m, n) && |m| == |n| == M32 && TlbOk(t, m, cr3, wp, edited)
    ensures TlbOk(t, n, cr3, wp, edited)
  {
    hide SameEntries, EntryOk;
    forall k | 0 <= k < TLB_SIZE
      ensures EntryOk(t[k], k, n, cr3, wp) || (t[k].lpgno in edited && t[k].lpgno % TLB_SIZE == k)
    {
      if EntryOk(t[k], k, m, cr3, wp) { EntrySurvives(t[k], k, m, n, cr3, wp); }
    }
  }

  lemma SameSize(m: seq<byte>, n: seq<byte>)
    requires SameEntries(m, n)
    ensures |m| == |n| == M32
  {
  }

  /** The memory after tlb_refill: accessed bits on the path that was walked. */
  function AfterRefill(m: seq<byte>, cr3: word, lpgno: nat): (r: seq<byte>)
    requires lpgno < 0x10_0000 && |m| == M32
    ensures |r| == M32
  {
    var d := PdeAddr(cr3, lpgno);
    if !Present(Dword(m, d)) then m
    else
      var m1 := Touch(m, d, ACCESSED);
      var t := PteAddr(m, cr3, lpgno);
      if !Present(Dword(m1, t)) then m1 else Touch(m1, t, ACCESSED)
  }

  lemma RefillKeepsEntries(m: seq<byte>, cr3: word, lpgno: nat)
    requires lpgno < 0x10_0000 && |m| == M32
    ensures SameEntries(m, AfterRefill(m, cr3, lpgno))
  {
    hide Touch, Dword, SameEntries;
    var d := PdeAddr(cr3, lpgno);
    SameRefl(m);
    if Present(Dword(m, d)) {
      TouchKeepsEntries(m, d, ACCESSED);
      var m1 := Touch(m, d, ACCESSED);
      var t := PteAddr(m, cr3, lpgno);
      if Present(Dword(m1, t)) {
        TouchKeepsEntries(m1, t, ACCESSED);
        SameEntriesTrans(m, m1, Touch(m1, t, ACCESSED));
      }
    }
  }

  lemma SameRefl(m: seq<byte>)
    requires |m| == M32
    ensures SameEntries(m, m)
  {
  }

  class Cpu {
    var mem: seq<byte>
    var cr3: word
    var wp: bool                 // CR0.WP
    var pg: bool                 // CR0.PG
    const tab: array<Entry>
    var cr2: nat
    var excerr: nat
    ghost var edited: set<nat>   // pages whose tables were edited since the last clear or their own refill

    predicate Shaped()
      reads this
    {
      |mem| == M32 && tab.Length == TLB_SIZE
    }

    ghost predicate Valid()
      reads this, tab
    {
      Shaped() && TlbOk(tab[..], mem, cr3, wp, edited)
    }

    /** The page is not cached, or what is cached is right. */
    predicate Trusted(lpgno: nat)
      requires Shaped()
      reads this, tab
    {
      tab[lpgno % TLB_SIZE].lpgno != lpgno || EntryOk(tab[lpgno % TLB_SIZE], lpgno % TLB_SIZE, mem, cr3, wp)
    }

    /** An access that goes through no cached translation the guest has edited and not flushed. */
    predicate Trusts(laddr: word, size: nat)
      requires Shaped() && 0 < size <= 4 && laddr + size <= M32
      reads this, tab
    {
      pg ==> Trusted(laddr / FRAME) && Trusted((laddr + size - 1) / FRAME)
    }

    /** Whatever was not edited is trusted. */
    lemma UneditedTrusted(laddr: word, size: nat)
      requires Valid() && 0 < size <= 4 && laddr + size <= M32
      requires laddr / FRAME !in edited && (laddr + size - 1) / FRAME !in edited
      ensures Trusts(laddr, size)
    {
      hide EntryOk;
      forall p | p == laddr / FRAME || p == (laddr + size - 1) / FRAME ensures Trusted(p) {
        assert EntryOk(tab[..][p % TLB_SIZE], p % TLB_SIZE, mem, cr3, wp)
            || tab[..][p % TLB_SIZE].lpgno in edited;
      }
    }

    constructor (m: seq<byte>)
      requires |m| == M32
      ensures Valid() && mem == m && !pg && fresh(tab) && edited == {}
    {
      mem := m;
      cr3, wp, pg, cr2, excerr, edited := 0, false, false, 0, 0, {};
      tab := new Entry[TLB_SIZE](_ => Entry(INVALID, 0, [], 0));
    }

    /** tlb_clear: whatever the guest did to its tables, the TLB is right afterwards. */
    method TlbClear()
      requires Shaped()
      modifies tab, this`edited
      ensures Valid() && edited == {}
      ensures forall k :: 0 <= k < TLB_SIZE ==> tab[k].lpgno == INVALID
    {
      var i := 0;
      while i < TLB_SIZE
        invariant 0 <= i <= TLB_SIZE
        invariant forall k :: 0 <= k < i ==> tab[k].lpgno == INVALID
      {
        tab[i] := tab[i].(lpgno := INVALID);
        i := i + 1;
      }
      edited := {};
    }

    /** MOV CR3. */
    method MovToCr3(v: word)
      requires Shaped()
      modifies this`cr3, this`edited, tab
      ensures Valid() && cr3 == v && edited == {}
    {
      cr3 := v;
      TlbClear();
    }

    /** MOV CR0 clears the TLB when PG, WP or (`peChanges`) PE changes. */
    predicate Clears(newPg: bool, newWp: bool, peChanges: bool)
      reads this`pg, this`wp
    {
      newPg != pg || newWp != wp || peChanges
    }

    method MovToCr0(newPg: bool, newWp: bool, peChanges: bool) returns (cleared: bool)
      requires Shaped() && (Clears(newPg, newWp, peChanges) || Valid())
      modifies this`pg, this`wp, this`edited, tab
      ensures Valid() && pg == newPg && wp == newWp
      ensures cleared == old(Clears(newPg, newWp, peChanges))
      ensures edited == if cleared then {} else old(edited)
    {
      cleared := newPg != pg || newWp != wp || peChanges;
      if cleared {
        TlbClear();
      }
      pg, wp := newPg, newWp;
    }

    /** tlb_refill. */
    method TlbRefill(k: nat, lpgno: nat) returns (ok: bool)
      requires Valid() && lpgno < 0x10_0000 && k == lpgno % TLB_SIZE
      modifies this`mem, this`edited, tab
      ensures Valid() && mem == AfterRefill(old(mem), cr3, lpgno) && edited <= old(edited)
      ensures ok == Walk(old(mem), cr3, lpgno).Page?
      ensures ok ==> tab[k].lpgno == lpgno && EntryOk(tab[k], k, mem, cr3, wp)
      ensures forall j :: 0 <= j < TLB_SIZE && j != k ==> tab[j] == old(tab[j])
      ensures ok ==> Touched(mem, PdeAddr(cr3, lpgno), 32) && Touched(mem, PteAddr(mem, cr3, lpgno), 32)
    {
      hide SameEntries, Touch, Dword, Xor;
      ghost var m0 := mem;
      RefillKeepsEntries(m0, cr3, lpgno);
      SameWalk(m0, AfterRefill(m0, cr3, lpgno), cr3, lpgno);
      TlbSurvives(tab[..], m0, AfterRefill(m0, cr3, lpgno), cr3, wp, edited);
      var pdeAddr := EntryAddr(cr3, lpgno / 1024);
      var pde := Dword(mem, pdeAddr);
      if !Present(pde) {
        return false;
      }
      mem := Touch(mem, pdeAddr, ACCESSED);
      TouchedPde(m0, pdeAddr);
      var pteAddr := EntryAddr(pde, lpgno % 1024);
      var pte := Dword(mem, pteAddr);
      if !Present(pte) {
        return false;
      }
      mem := Touch(mem, pteAddr, ACCESSED);
      TouchTwice(m0, pdeAddr, pteAddr, ACCESSED);
      ghost var w := Walk(mem, cr3, lpgno);
      SameDword(m0, Touch(m0, pdeAddr, ACCESSED), pteAddr);
      tab[k] := Entry(lpgno, Xor(FrameOf(pte), lpgno * FRAME),
                      Lookup(wp, User(pde) && User(pte), Writable(pde) && Writable(pte)), pteAddr);
      assert EntryOk(tab[k], k, mem, cr3, wp);
      edited := edited - {lpgno};
      ok := true;
    }

    /** A page fault of a linear address. */
    method PageFault(laddr: nat, present: bool, write: bool, user: bool)
      modifies this`cr2, this`excerr
      ensures Fault(cr2, excerr) == Fault(laddr, ErrorCode(present, write, user))
    {
      cr2 := laddr;
      excerr := if present then 1 else 0;
      if write { excerr := excerr + 2; }
      if user { excerr := excerr + 4; }
    }

    /**
     translate_lpgno: the answer is that of a fresh walk of the tables as they are
     now, whatever the TLB happens to hold about pages that were not edited.
     */
    method TranslatePage(write: bool, user: bool, laddr: word) returns (ok: bool, paddr: nat)
      requires Valid() && Trusted(laddr / FRAME)
      modifies this`mem, this`cr2, this`excerr, this`edited, tab
      ensures Valid() && SameEntries(old(mem), mem) && edited <= old(edited)
      ensures forall j :: 0 <= j < TLB_SIZE && j != laddr / FRAME % TLB_SIZE ==> tab[j] == old(tab[j])
      ensures Translate(old(mem), cr3, wp, write, user, laddr) == if ok then Ok(paddr) else Fault(cr2, excerr)
      ensures ok && write ==> Touched(mem, PteAddr(mem, cr3, laddr / FRAME), 64)
    {
      hide SameEntries, Touch, Dword, Xor, PteAddr, Lookup, Forbidden;
      var lpgno := laddr / FRAME;
      var k := lpgno % TLB_SIZE;
      paddr := 0;
      ghost var m0 := mem;
      SameRefl(m0);
      if tab[k].lpgno != lpgno {
        ok := TlbRefill(k, lpgno);
        RefillKeepsEntries(m0, cr3, lpgno);
        SameWalk(m0, mem, cr3, lpgno);
        if !ok {
          PageFault(laddr, false, write, user);
          return;
        }
      }
      var ent := tab[k];
      assert EntryOk(ent, k, mem, cr3, wp);
      EntryAnswers(ent, mem, cr3, wp, write, user, laddr);
      if ent.lookup[B(user)][B(write)] {
        PageFault(laddr, true, write, user);
        tab[k] := ent.(lpgno := INVALID);
        return false, 0;
      }
      paddr := Xor(ent.xaddr, laddr);
      if write {
        MarkDirty(m0, lpgno, ent.ppte);
      }
      ok := true;
    }

    method MarkDirty(ghost m0: seq<byte>, ghost lpgno: nat, ppte: nat)
      requires Valid() && SameEntries(m0, mem) && lpgno < 0x10_0000 && ppte == PteAddr(mem, cr3, lpgno)
      modifies this`mem
      ensures Valid() && SameEntries(m0, mem)
      ensures ppte == PteAddr(mem, cr3, lpgno) && Touched(mem, ppte, 64)
    {
      hide SameEntries, Touch, Dword, Walk, PteAddr;
      ghost var m1 := mem;
      TouchKeepsEntries(mem, ppte, DIRTY);
      mem := Touch(mem, ppte, DIRTY);
      TlbSurvives(tab[..], m1, mem, cr3, wp, edited);
      SameEntriesTrans(m0, m1, mem);
      SameWalk(m1, mem, cr3, lpgno);
      TouchOnce(m1, ppte, DIRTY);
    }

    /** The reference for byte `i` of an access; without paging an address is its own translation. */
    function TranslateByte(m: seq<byte>, write: bool, user: bool, laddr: nat, i: nat): Outcome
      requires |m| == M32 && laddr + i < M32
      reads this`pg, this`cr3, this`wp
    {
      if pg then Translate(m, cr3, wp, write, user, laddr + i) else Ok(laddr + i)
    }

    /** Byte `i` is the first one that faults, and it faults with `f`. */
    ghost predicate FirstFault(m: seq<byte>, write: bool, user: bool, laddr: nat, i: nat, f: Outcome)
      requires |m| == M32 && laddr + i < M32
      reads this`pg, this`cr3, this`wp
    {
      && TranslateByte(m, write, user, laddr, i) == f && f.Fault?
      && forall j :: 0 <= j < i ==> TranslateByte(m, write, user, laddr, j).Ok?
    }

    /** The access faults, with `f`, at its first byte that cannot be translated. */
    ghost predicate Faults(m: seq<byte>, write: bool, user: bool, laddr: nat, size: nat, f: Outcome)
      requires |m| == M32 && laddr + size <= M32
      reads this`pg, this`cr3, this`wp
    {
      exists i :: 0 <= i < size && FirstFault(m, write, user, laddr, i, f)
    }

    /**
     translate_laddr: an access that straddles two pages is translated page by
     page, which is the same as translating each byte.
     */
    method TranslateAddress(write: bool, user: bool, laddr: word, size: nat) returns (ok: bool, o: OptAddr)
      requires Valid() && (size == 1 || size == 2 || size == 4) && laddr + size <= M32 && Trusts(laddr, size)
      modifies this`mem, this`cr2, this`excerr, this`edited, tab
      ensures Valid() && SameEntries(old(mem), mem) && edited <= old(edited)
      ensures ok ==> Placed(o, laddr, size)
      ensures ok ==> forall i :: 0 <= i < size ==>
                TranslateByte(old(mem), write, user, laddr, i) == Ok(ByteAddr(o, laddr, i))
      ensures !ok ==> Faults(old(mem), write, user, laddr, size, Fault(cr2, excerr))
    {
      hide SameEntries, Walk, Translate, Faults, FirstFault;
      o := OneAddr(0);
      ghost var m0 := mem;
      if !pg {
        SameRefl(mem);
        return true, OneAddr(laddr);
      }
      var paddr;
      ghost var t0 := tab[..];
      ok, paddr := TranslatePage(write, user, laddr);
      if !ok {
        FaultAt(m0, write, user, laddr, size, 0);
        return;
      }
      OkFrame(m0, cr3, wp, write, user, laddr);
      o := OneAddr(paddr);
      if laddr % FRAME > FRAME - size {
        StillTrusted(t0, m0, laddr, size);
        ok, paddr := TranslateNext(m0, write, user, laddr);
        if !ok {
          o := OneAddr(0);
          FaultAt(m0, write, user, laddr, size, FRAME - laddr % FRAME);
          return;
        }
        o := OptAddr(true, o.addr1, paddr);
      }
      BytesOfPages(m0, write, user, laddr, size, o);
    }

    /** Translating one page leaves what the TLB says about the next. */
    lemma StillTrusted(t0: seq<Entry>, m0: seq<byte>, laddr: word, size: nat)
      requires Shaped() && SameEntries(m0, mem) && |m0| == M32 && |t0| == TLB_SIZE && size <= 4
      requires laddr % FRAME > FRAME - size && laddr + size <= M32
      requires forall j :: 0 <= j < TLB_SIZE && j != laddr / FRAME % TLB_SIZE ==> tab[j] == t0[j]
      requires var p := (laddr + size - 1) / FRAME;
               t0[p % TLB_SIZE].lpgno != p || EntryOk(t0[p % TLB_SIZE], p % TLB_SIZE, m0, cr3, wp)
      ensures (laddr / FRAME + 1) * FRAME < M32 && Trusted(laddr / FRAME + 1)
    {
      hide SameEntries, EntryOk;
      var p := laddr / FRAME + 1;
      DivModUnique(laddr + size - 1, FRAME, p, laddr % FRAME + size - 1 - FRAME);
      if t0[p % TLB_SIZE].lpgno == p {
        EntrySurvives(t0[p % TLB_SIZE], p % TLB_SIZE, m0, mem, cr3, wp);
      }
    }

    /** A page that faults makes its first byte the first that faults. */
    lemma FaultAt(m: seq<byte>, write: bool, user: bool, laddr: nat, size: nat, i: nat)
      requires |m| == M32 && pg && laddr + size <= M32 && i < size
      requires i == 0 || (i == FRAME - laddr % FRAME && Translate(m, cr3, wp, write, user, laddr).Ok?)
      requires Translate(m, cr3, wp, write, user, laddr + i).Fault?
      ensures Faults(m, write, user, laddr, size, Translate(m, cr3, wp, write, user, laddr + i))
    {
      hide Walk, Translate;
      forall j | 0 <= j < i ensures TranslateByte(m, write, user, laddr, j).Ok? {
        SamePage(m, cr3, wp, write, user, laddr, j);
      }
      assert FirstFault(m, write, user, laddr, i, Translate(m, cr3, wp, write, user, laddr + i));
    }

    /** Two translated pages give every byte of the access. */
    lemma BytesOfPages(m: seq<byte>, write: bool, user: bool, laddr: nat, size: nat, o: OptAddr)
      requires |m| == M32 && pg && 0 < size <= 4 && laddr + size <= M32
      requires Translate(m, cr3, wp, write, user, laddr) == Ok(o.addr1)
      requires laddr % FRAME + size > FRAME ==> o.two && (laddr / FRAME + 1) * FRAME < M32
      requires o.two && (laddr / FRAME + 1) * FRAME < M32 ==>
                 Translate(m, cr3, wp, write, user, (laddr / FRAME + 1) * FRAME) == Ok(o.addr2)
      ensures forall i :: 0 <= i < size ==> TranslateByte(m, write, user, laddr, i) == Ok(ByteAddr(o, laddr, i))
    {
      hide Walk, Translate;
      var next := (laddr / FRAME + 1) * FRAME;
      forall i | 0 <= i < size ensures TranslateByte(m, write, user, laddr, i) == Ok(ByteAddr(o, laddr, i)) {
        if laddr % FRAME + i >= FRAME {
          SamePage(m, cr3, wp, write, user, next, laddr + i - next);
        } else {
          SamePage(m, cr3, wp, write, user, laddr, i);
        }
      }
    }

    /** The second page of a straddling access. */
    method TranslateNext(ghost m0: seq<byte>, write: bool, user: bool, laddr: word) returns (ok: bool, paddr: nat)
      requires Valid() && |m0| == M32 && SameEntries(m0, mem) && (laddr / FRAME + 1) * FRAME < M32
      requires Trusted(laddr / FRAME + 1)
      modifies this`mem, this`cr2, this`excerr, this`edited, tab
      ensures Valid() && SameEntries(m0, mem) && edited <= old(edited)
      ensures Translate(m0, cr3, wp, write, user, (laddr / FRAME + 1) * FRAME) ==
                if ok then Ok(paddr) else Fault(cr2, excerr)
      ensures ok ==> paddr % FRAME == 0 && paddr + FRAME <= M32
    {
      hide SameEntries, Walk, Translate;
      ghost var m1 := mem;
      var next := (laddr / FRAME + 1) * FRAME;
      SameTranslate(m0, mem, cr3, wp, write, user, next);
      ok, paddr := TranslatePage(write, user, next);
      SameEntriesTrans(m0, m1, mem);
      if ok { OkFrame(m0, cr3, wp, write, user, next); }
    }

    // ----- Loads and stores at a translated address -----

    /** load8, load16 with load16_slow, load32 with load32_slow. */
    method Load(o: OptAddr, ghost laddr: nat, size: nat) returns (v: nat)
      requires |mem| == M32 && (size == 1 || size == 2 || size == 4) && Placed(o, laddr, size)
      ensures v == FromBytes(Gather(mem, o, laddr, size))
    {
      var a1, a2 := o.addr1, o.addr2;
      GatherIs(mem, o, laddr, size);
      if size == 1 {
        v := Byte(a1);
      } else if size == 2 {
        if !o.two {
          v := Byte(a1) + 256 * Byte(a1 + 1);
        } else {
          v := Byte(a1) + 256 * Byte(a2);
        }
      } else if !o.two {
        v := Dword(mem, a1);
      } else {
        SplitPoint(o, laddr);
        if a1 % 16 == 15 {
          v := Byte(a1) + 256 * Half(a2) + 16777216 * Byte(a2 + 2);
        } else if a1 % 16 == 14 {
          v := Half(a1) + 65536 * Half(a2);
        } else {
          v := Byte(a1) + 256 * Half(a1 + 1) + 16777216 * Byte(a2);
        }
      }
    }

    function Byte(a: nat): (v: nat)
      requires a < |mem|
      reads this
    {
      mem[a]
    }

    function Half(a: nat): (v: nat)
      requires a + 1 < |mem|
      reads this
    {
      Byte(a) + 256 * Byte(a + 1)
    }

    /** store8, store16 with store16_slow, store32 with store32_slow. */
    method Store(o: OptAddr, ghost laddr: nat, size: nat, v: nat)
      requires |mem| == M32 && (size == 1 || size == 2 || size == 4) && Placed(o, laddr, size)
      modifies this`mem
      ensures mem == Scatter(old(mem), o, laddr, ToBytes(v, size))
    {
      var a1, a2 := o.addr1, o.addr2;
      ScatterIs(mem, o, laddr, v, size);
      if size == 1 {
        mem := mem[a1 := v % 256];
      } else if size == 2 {
        mem := mem[a1 := v % 256];
        mem := mem[(if o.two then a2 else a1 + 1) := v / 256 % 256];
      } else if !o.two {
        mem := mem[a1 := v % 256][a1 + 1 := v / 256 % 256][a1 + 2 := v / 65536 % 256][a1 + 3 := v / 16777216 % 256];
      } else {
        SplitPoint(o, laddr);
        if a1 % 16 == 15 {
          mem := mem[a1 := v % 256];
          mem := mem[a2 := v / 256 % 256][a2 + 1 := v / 65536 % 256];
          mem := mem[a2 + 2 := v / 16777216 % 256];
        } else if a1 % 16 == 14 {
          mem := mem[a1 := v % 256][a1 + 1 := v / 256 % 256];
          mem := mem[a2 := v / 65536 % 256][a2 + 1 := v / 16777216 % 256];
        } else {
          mem := mem[a1 := v % 256];
          mem := mem[a1 + 1 := v / 256 % 256][a1 + 2 := v / 65536 % 256];
          mem := mem[a2 := v / 16777216 % 256];
        }
      }
    }

    /**
     cpu_load8/16/32: the value is made of the bytes at the individually
     translated addresses, or the fault is that of the first byte that faults.
     */
    method CpuLoad(user: bool, laddr: word, size: nat) returns (ok: bool, v: nat, ghost bs: seq<byte>)
      requires Valid() && (size == 1 || size == 2 || size == 4) && laddr + size <= M32 && Trusts(laddr, size)
      modifies this`mem, this`cr2, this`excerr, this`edited, tab
      ensures Valid() && SameEntries(old(mem), mem) && edited <= old(edited)
      ensures ok ==> |bs| == size && v == FromBytes(bs) && Individually(old(mem), mem, user, false, laddr, bs)
      ensures !ok ==> Faults(old(mem), false, user, laddr, size, Fault(cr2, excerr))
    {
      hide SameEntries, Translate, Faults;
      v, bs := 0, [];
      var o;
      ok, o := TranslateAddress(false, user, laddr, size);
      if ok {
        v := Load(o, laddr, size);
        bs := Gather(mem, o, laddr, size);
      }
    }

    /** Byte `i` of `bs` is in `now` at the translation, under `was`, of address laddr + i. */
    ghost predicate Individually(was: seq<byte>, now: seq<byte>, user: bool, write: bool, laddr: nat, bs: seq<byte>)
      requires |was| == |now| == M32 && laddr + |bs| <= M32
      reads this`pg, this`cr3, this`wp
    {
      forall i :: 0 <= i < |bs| ==>
        var t := TranslateByte(was, write, user, laddr, i);
        t.Ok? && t.paddr < M32 && now[t.paddr] == bs[i]
    }

    /**
     cpu_store8/16/32.  The TLB stays right but for the pages whose tables the store
     edits.
     */
    method CpuStore(user: bool, laddr: word, size: nat, v: nat) returns (ok: bool, ghost mid: seq<byte>)
      requires Valid() && (size == 1 || size == 2 || size == 4) && laddr + size <= M32 && Trusts(laddr, size)
      modifies this`mem, this`cr2, this`excerr, this`edited, tab
      ensures |mem| == |mid| == M32 && SameEntries(old(mem), mid)
      ensures Valid() && edited <= old(edited) + Edits(old(mem), mem, cr3)
      ensures ok ==> Individually(old(mem), mem, user, true, laddr, ToBytes(v, size))
      ensures forall x :: 0 <= x < M32 && mem[x] != mid[x] ==>
                exists i :: 0 <= i < size && TranslateByte(old(mem), true, user, laddr, i) == Ok(x)
      ensures !ok ==> mem == mid
      ensures !ok ==> Faults(old(mem), true, user, laddr, size, Fault(cr2, excerr))
    {
      hide SameEntries, Translate, Walk, PteAddr, Scatter, EntryOk, Faults, Edits;
      var o;
      ok, o := TranslateAddress(true, user, laddr, size);
      mid := mem;
      if ok {
        Store(o, laddr, size, v);
        ghost var bs := ToBytes(v, size);
        ScatterHolds(mid, o, laddr, bs);
        forall i | 0 <= i < size
          ensures var t := TranslateByte(old(mem), true, user, laddr, i);
                  t.Ok? && t.paddr < M32 && mem[t.paddr] == bs[i]
        {
          PlacedInside(o, laddr, size, i);
        }
      }
      KeptTlb(tab[..], mid, mem, cr3, wp, edited);
      SameEdits(old(mem), mid, mem, cr3);
      edited := edited + Edits(mid, mem, cr3);
    }
  }

  datatype OptAddr = OptAddr(two: bool, addr1: nat, addr2: nat)

  /** Where byte `i` of an access at `laddr` lives. */
  function ByteAddr(o: OptAddr, laddr: nat, i: nat): (a: nat) {
    if o.two && laddr % FRAME + i >= FRAME then o.addr2 + (laddr % FRAME + i - FRAME) else o.addr1 + i
  }

  /** What a successful translation of `size` bytes delivers. */
  predicate Placed(o: OptAddr, laddr: nat, size: nat) {
    if o.two then
      && laddr % FRAME + size > FRAME && o.addr1 % FRAME == laddr % FRAME && o.addr2 % FRAME == 0
      && o.addr1 / FRAME * FRAME + FRAME <= M32 && o.addr2 + FRAME <= M32
    else
      o.addr1 + size <= M32
  }

  lemma PlacedInside(o: OptAddr, laddr: nat, size: nat, i: nat)
    requires Placed(o, laddr, size) && i < size <= 4
    ensures ByteAddr(o, laddr, i) < M32
  {
  }

  /** The bytes of an access, each from its own address. */
  function Gather(m: seq<byte>, o: OptAddr, laddr: nat, size: nat): (bs: seq<byte>)
    requires |m| == M32 && Placed(o, laddr, size) && size <= 4
    ensures |bs| == size
    ensures forall i :: 0 <= i < size ==> ByteAddr(o, laddr, i) < M32 && bs[i] == m[ByteAddr(o, laddr, i)]
  {
    forall i: nat | i < size ensures ByteAddr(o, laddr, i) < M32 { PlacedInside(o, laddr, size, i); }
    seq(size, i requires 0 <= i < size => m[ByteAddr(o, laddr, i)])
  }

  function Scatter(m: seq<byte>, o: OptAddr, laddr: nat, bs: seq<byte>): (r: seq<byte>)
    requires |m| == M32 && Placed(o, laddr, |bs|) && |bs| <= 4
    ensures |r| == M32
  {
    ScatterTo(m, o, laddr, bs, |bs|)
  }

  /** The first `n` bytes stored, in order. */
  function ScatterTo(m: seq<byte>, o: OptAddr, laddr: nat, bs: seq<byte>, n: nat): (r: seq<byte>)
    requires |m| == M32 && Placed(o, laddr, |bs|) && n <= |bs| <= 4
    ensures |r| == M32
  {
    if n == 0 then m
    else
      PlacedInside(o, laddr, |bs|, n - 1);
      ScatterTo(m, o, laddr, bs, n - 1)[ByteAddr(o, laddr, n - 1) := bs[n - 1]]
  }

  lemma GatherIs(m: seq<byte>, o: OptAddr, laddr: nat, size: nat)
    requires |m| == M32 && Placed(o, laddr, size) && (size == 1 || size == 2 || size == 4)
    ensures var g := Gather(m, o, laddr, size);
            FromBytes(g) == g[0] as nat + (if size >= 2 then 256 * g[1] as nat else 0)
                            + (if size == 4 then 65536 * g[2] as nat + 16777216 * g[3] as nat else 0)
  {
    var g := Gather(m, o, laddr, size);
    if size == 1 {
      assert g == [g[0]];
      FromBytes1(g[0]);
    } else if size == 2 {
      assert g == [g[0], g[1]];
      FromBytes2(g[0], g[1]);
    } else {
      assert g == [g[0], g[1], g[2], g[3]];
      FromBytes4(g[0], g[1], g[2], g[3]);
    }
  }

  lemma ScatterIs(m: seq<byte>, o: OptAddr, laddr: nat, v: nat, size: nat)
    requires |m| == M32 && Placed(o, laddr, size) && (size == 1 || size == 2 || size == 4)
    ensures forall i: nat :: i < size ==> ByteAddr(o, laddr, i) < M32
    ensures var p := i => ByteAddr(o, laddr, i);
            Scatter(m, o, laddr, ToBytes(v, size)) ==
              if size == 1 then m[p(0) := v % 256]
              else if size == 2 then m[p(0) := v % 256][p(1) := v / 256 % 256]
              else m[p(0) := v % 256][p(1) := v / 256 % 256][p(2) := v / 65536 % 256][p(3) := v / 16777216 % 256]
  {
    forall i: nat | i < size ensures ByteAddr(o, laddr, i) < M32 { PlacedInside(o, laddr, size, i); }
    var bs := ToBytes(v, size);
    if size == 1 {
      ToBytes1(v);
      assert ScatterTo(m, o, laddr, bs, 0) == m;
    } else if size == 2 {
      ToBytes2(v);
      assert ScatterTo(m, o, laddr, bs, 1) == m[ByteAddr(o, laddr, 0) := bs[0]];
    } else {
      ToBytes4(v);
      assert ScatterTo(m, o, laddr, bs, 1) == m[ByteAddr(o, laddr, 0) := bs[0]];
      assert ScatterTo(m, o, laddr, bs, 2) == m[ByteAddr(o, laddr, 0) := bs[0]][ByteAddr(o, laddr, 1) := bs[1]];
      assert ScatterTo(m, o, laddr, bs, 3) == ScatterTo(m, o, laddr, bs, 2)[ByteAddr(o, laddr, 2) := bs[2]];
    }
  }

  lemma DistinctBytes(o: OptAddr, laddr: nat, size: nat, i: nat, j: nat)
    requires Placed(o, laddr, size) && i < j < size <= 4
    ensures ByteAddr(o, laddr, i) != ByteAddr(o, laddr, j)
  {
  }

  lemma {:induction false} ScatterToHolds(m: seq<byte>, o: OptAddr, laddr: nat, bs: seq<byte>, n: nat)
    requires |m| == M32 && Placed(o, laddr, |bs|) && n <= |bs| <= 4
    ensures var r := ScatterTo(m, o, laddr, bs, n);
            && (forall i: nat :: i < n ==> ByteAddr(o, laddr, i) < M32 && r[ByteAddr(o, laddr, i)] == bs[i])
            && (forall x: nat :: x < M32 && r[x] != m[x] ==> exists i :: 0 <= i < n && x == ByteAddr(o, laddr, i))
  {
    if n > 0 {
      ScatterToHolds(m, o, laddr, bs, n - 1);
      PlacedInside(o, laddr, |bs|, n - 1);
      forall i: nat | i < n - 1 ensures ByteAddr(o, laddr, i) != ByteAddr(o, laddr, n - 1) {
        DistinctBytes(o, laddr, |bs|, i, n - 1);
      }
      forall x: nat | x < M32 && ScatterTo(m, o, laddr, bs, n)[x] != m[x]
        ensures exists i :: 0 <= i < n && x == ByteAddr(o, laddr, i)
      {
        if x == ByteAddr(o, laddr, n - 1) {
          assert 0 <= n - 1 < n && x == ByteAddr(o, laddr, n - 1);
        } else {
          assert ScatterTo(m, o, laddr, bs, n - 1)[x] != m[x];
        }
      }
    }
  }

  lemma ScatterHolds(m: seq<byte>, o: OptAddr, laddr: nat, bs: seq<byte>)
    requires |m| == M32 && Placed(o, laddr, |bs|) && |bs| <= 4
    ensures var r := Scatter(m, o, laddr, bs);
            && (forall i: nat :: i < |bs| ==> ByteAddr(o, laddr, i) < M32 && r[ByteAddr(o, laddr, i)] == bs[i])
            && (forall x: nat :: x < M32 && r[x] != m[x] ==> exists i :: 0 <= i < |bs| && x == ByteAddr(o, laddr, i))
  {
    ScatterToHolds(m, o, laddr, bs, |bs|);
  }

  /** The last nibble of the first address tells how many bytes are on the first page. */
  lemma SplitPoint(o: OptAddr, laddr: nat)
    requires o.two && Placed(o, laddr, 4)
    ensures 13 <= o.addr1 % 16 <= 15 && laddr % FRAME == 4080 + o.addr1 % 16
  {
    var q, r := o.addr1 / FRAME, o.addr1 % FRAME;
    DivModUnique(o.addr1, 16, 256 * q + 255, r - 4080);
  }

  function OneAddr(a: nat): OptAddr { OptAddr(false, a, 0) }

  /** Any change of memory whatever: the TLB stays right but for the pages it edits. */
  lemma KeptTlb(t: seq<Entry>, was: seq<byte>, now: seq<byte>, cr3: word, wp: bool, edited: set<nat>)
    requires |was| == |now| == M32 && TlbOk(t, was, cr3, wp, edited)
    ensures TlbOk(t, now, cr3, wp, edited + Edits(was, now, cr3))
  {
    hide Walk, PteAddr;
    forall k | 0 <= k < TLB_SIZE && EntryOk(t[k], k, was, cr3, wp)
      ensures EntryOk(t[k], k, now, cr3, wp) || (t[k].lpgno in Edits(was, now, cr3) && t[k].lpgno % TLB_SIZE == k)
    {
    }
  }

  /** Accessed and dirty updates edit nothing. */
  lemma SameEdits(was: seq<byte>, mid: seq<byte>, now: seq<byte>, cr3: word)
    requires |was| == |mid| == |now| == M32 && SameEntries(was, mid)
    ensures Edits(was, now, cr3) == Edits(mid, now, cr3)
  {
    hide SameEntries, Walk, PteAddr;
    forall p: nat | p < 0x10_0000
      ensures Walk(was, cr3, p) == Walk(mid, cr3, p) && PteAddr(was, cr3, p) == PteAddr(mid, cr3, p)
    {
      SameWalk(was, mid, cr3, p);
    }
  }

  /** A page is edited only if a frame or permission bit of one of its two entries changes. */
  lemma DataStoreKeepsWalks(was: seq<byte>, now: seq<byte>, cr3: word, p: nat)
    requires |was| == |now| == M32 && p < 0x10_0000
    requires SameEntry(Dword(was, PdeAddr(cr3, p)), Dword(now, PdeAddr(cr3, p)))
    requires SameEntry(Dword(was, PteAddr(was, cr3, p)), Dword(now, PteAddr(was, cr3, p)))
    ensures p !in Edits(was, now, cr3)
  {
    hide Dword, SameEntry;
    SameBits(Dword(was, PdeAddr(cr3, p)), Dword(now, PdeAddr(cr3, p)));
    var a := PteAddr(was, cr3, p);
    SameBits(Dword(was, a), Dword(now, a));
  }

  /** What a right entry answers is what the walk answers. */
  lemma EntryAnswers(e: Entry, m: seq<byte>, cr3: word, wp: bool, write: bool, user: bool, laddr: word)
    requires |m| == M32 && e.lpgno == laddr / FRAME && EntryOk(e, e.lpgno % TLB_SIZE, m, cr3, wp)
    ensures |e.lookup| == 2 && |e.lookup[B(user)]| == 2 && e.ppte == PteAddr(m, cr3, e.lpgno)
    ensures Translate(m, cr3, wp, write, user, laddr) ==
              if e.lookup[B(user)][B(write)] then Fault(laddr, ErrorCode(true, write, user))
              else Ok(Xor(e.xaddr, laddr))
  {
    hide Xor, Walk, PteAddr;
    var w := Walk(m, cr3, e.lpgno);
    LookupIsForbidden(wp, w.us, w.rw, user, write);
    WalkFrame(m, cr3, e.lpgno);
    XorFrame(w.frame, e.lpgno, laddr);
  }

  lemma TouchOnce(m: seq<byte>, a: nat, bit: nat)
    requires a < |m| && (bit == ACCESSED || bit == DIRTY)
    ensures Touched(Touch(m, a, bit), a, bit)
  {
  }

  lemma FrameAligned(e: word)
    ensures FrameOf(e) % FRAME == 0 && FrameOf(e) + FRAME <= M32
  {
  }

  lemma WalkFrame(m: seq<byte>, cr3: word, lpgno: nat)
    requires |m| == M32 && lpgno < 0x10_0000 && Walk(m, cr3, lpgno).Page?
    ensures Walk(m, cr3, lpgno).frame % FRAME == 0 && Walk(m, cr3, lpgno).frame + FRAME <= M32
  {
    hide Dword, FrameOf, PteAddr, Present;
    FrameAligned(Dword(m, PteAddr(m, cr3, lpgno)));
  }

  lemma OkFrame(m: seq<byte>, cr3: word, wp: bool, write: bool, user: bool, laddr: word)
    requires |m| == M32 && Translate(m, cr3, wp, write, user, laddr).Ok?
    ensures var p := Translate(m, cr3, wp, write, user, laddr).paddr;
            p % FRAME == laddr % FRAME && p / FRAME * FRAME + FRAME <= M32
  {
    WalkFrame(m, cr3, laddr / FRAME);
    var f := Walk(m, cr3, laddr / FRAME).frame;
    DivModUnique(f + laddr % FRAME, FRAME, f / FRAME, laddr % FRAME);
  }

  /** Bytes of one page translate alike. */
  lemma SamePage(m: seq<byte>, cr3: word, wp: bool, write: bool, user: bool, laddr: word, i: nat)
    requires |m| == M32 && laddr % FRAME + i < FRAME && laddr + i < M32
    requires Translate(m, cr3, wp, write, user, laddr).Ok?
    ensures Translate(m, cr3, wp, write, user, laddr + i) == Ok(Translate(m, cr3, wp, write, user, laddr).paddr + i)
  {
    hide Walk;
    DivModUnique(laddr + i, FRAME, laddr / FRAME, laddr % FRAME + i);
  }

  lemma SameTranslate(m: seq<byte>, n: seq<byte>, cr3: word, wp: bool, write: bool, user: bool, laddr: word)
    requires SameEntries(m, n) && |m| == |n| == M32
    ensures Translate(m, cr3, wp, write, user, laddr) == Translate(n, cr3, wp, write, user, laddr)
  {
    SameWalk(m, n, cr3, laddr / FRAME);
  }

  lemma SameDword(m: seq<byte>, n: seq<byte>, x: nat)
    requires SameEntries(m, n) && x % 4 == 0 && x + 4 <= M32
    ensures Present(Dword(m, x)) == Present(Dword(n, x)) && FrameOf(Dword(m, x)) == FrameOf(Dword(n, x))
    ensures User(Dword(m, x)) == User(Dword(n, x)) && Writable(Dword(m, x)) == Writable(Dword(n, x))
  {
    SameBits(Dword(m, x), Dword(n, x));
  }

  lemma TouchedPde(m: seq<byte>, a: nat)
    requires |m| == M32 && a % 4 == 0 && a + 4 <= M32
    ensures SameEntries(m, Touch(m, a, ACCESSED))
  {
    TouchKeepsEntries(m, a, ACCESSED);
  }

  lemma TouchTwice(m: seq<byte>, a: nat, b: nat, bit: nat)
    requires a < |m| && b < |m| && (bit == ACCESSED || bit == DIRTY)
    ensures var n := Touch(Touch(m, a, bit), b, bit); Touched(n, a, bit) && Touched(n, b, bit)
  {
  }
}
