/**
 Instruction fetch: a remembered code page and a 16-byte buffer in front of
 translation and memory.  Every method is a step of the machine in module
 FetchRuns, whose lemmas say which of its fetches answer as a fresh walk.
 */
module Prefetch {
  import opened GuestMemory
  import opened PageWalk
  import opened Mmu
  import opened FetchPage
  import opened FetchRuns
  import opened Arith

  class Fetcher {
    const cpu: Cpu
    var user: bool                // cpl > 0
    var csBase: word
    var nextIp: word
    var ifLaddr: nat              // ifetch.laddr
    var ifXaddr: nat              // ifetch.xaddr
    var prefetchBase: nat
    const prefetch: array<byte>

    constructor (c: Cpu)
      requires c.Valid()
      ensures cpu == c && Ready() && Coherent(Now()) && fresh(prefetch)
      ensures csBase == nextIp == 0 && !user
    {
      cpu := c;
      user, csBase, nextIp := false, 0, 0;
      ifLaddr, ifXaddr, prefetchBase := NONE, 0, NONE;
      prefetch := new byte[16](_ => 0);
    }

    function Laddr(): word
      reads this
    {
      (csBase + nextIp) % 0x1_0000_0000
    }

    ghost function Now(): (s: Snap)
      reads this, cpu, prefetch
    {
      Snap(cpu.mem, cpu.pg, cpu.cr3, cpu.wp, user, Laddr(), ifLaddr, ifXaddr, prefetchBase, prefetch[..])
    }

    ghost predicate Ready()
      reads this, cpu, cpu.tab, prefetch
    {
      cpu.Valid() && IsShape(Now())
    }

    /** The fetch needs no walk, or its walk goes through nothing the guest has edited and not flushed. */
    predicate MayFetch(size: nat)
      requires cpu.Shaped() && 0 < size <= 4 && Laddr() + size <= M32
      reads this, cpu, cpu.tab
    {
      Xor(Laddr(), ifLaddr) < FRAME - size + 1 || cpu.Trusts(Laddr(), size)
    }

    // ----- Fetches -----

    /** prefetch_fill. */
    method Fill(paddr: nat)
      requires |cpu.mem| == M32 && prefetch.Length == 16 && paddr < M32
      modifies this`prefetchBase, prefetch
      ensures prefetchBase == paddr / 16 * 16 && prefetchBase + 16 <= M32
      ensures prefetch[..] == cpu.mem[prefetchBase..prefetchBase + 16]
    {
      BlockInside(paddr);
      prefetchBase := paddr / 16 * 16;
      var i := 0;
      while i < 16
        invariant 0 <= i <= 16 && i % 4 == 0 && prefetchBase == paddr / 16 * 16
        invariant forall k :: 0 <= k < i ==> prefetch[k] == cpu.mem[prefetchBase + k]
      {
        prefetch[i] := cpu.mem[prefetchBase + i];
        prefetch[i + 1] := cpu.mem[prefetchBase + i + 1];
        prefetch[i + 2] := cpu.mem[prefetchBase + i + 2];
        prefetch[i + 3] := cpu.mem[prefetchBase + i + 3];
        i := i + 4;
      }
    }

    /** The start of every hit: the address from the remembered page, and the buffer made to cover it. */
    method CoverPage() returns (paddr: nat)
      requires IsShape(Now()) && Served(Now()) < M32
      modifies this`prefetchBase, prefetch
      ensures paddr == old(Served(Now())) && (prefetchBase, prefetch[..]) == old(Covered(Now()))
    {
      hide Xor;
      paddr := Xor(ifXaddr, Laddr());
      if !Hit(paddr, prefetchBase) {
        Fill(paddr);
      }
    }

    /** peek8 and peek8_slow. */
    method Peek8() returns (ok: bool, val: byte, ghost r: Report)
      requires Ready() && MayFetch(1)
      modifies this`ifLaddr, this`ifXaddr, this`prefetchBase, prefetch
      modifies cpu`mem, cpu`cr2, cpu`excerr, cpu`edited, cpu.tab
      ensures Ready() && cpu.edited <= old(cpu.edited) && Step(Op.Peek8, old(Now()), Now(), r)
      ensures if ok then r.Got? && r.bs == [val] else r == Refused(Fault(cpu.cr2, cpu.excerr))
    {
      hide Xor, SameEntries, Translate, Walk, ServedBytes, ServedAddrs, Right, FaultsFirst;
      if Xor(Laddr(), ifLaddr) < 4096 {
        val, r := PeekCached();
        ok := true;
      } else {
        ok, val, r := PeekNewPage();
      }
      StepShape(Op.Peek8, old(Now()), Now(), r);
    }

    method PeekCached() returns (val: byte, ghost r: Report)
      requires Ready() && PageHit(Now(), 1)
      modifies this`prefetchBase, prefetch
      ensures FetchStep(old(Now()), Now(), 1, 0, r) && r.Got? && r.bs == [val]
    {
      hide Xor, SameEntries, FetchStep, Covered, ServedBytes, ServedAddrs, TlbOk, PageHit;
      ghost var s := Now();
      ServedFits(s, 1);
      CoveredServes(s, 1);
      var paddr := CoverPage();
      val := prefetch[..][paddr % 16];
      r := Got(ServedAddrs(s, 1), ServedBytes(s, 1));
      ServedStep(s, Now(), 1);
    }

    method PeekNewPage() returns (ok: bool, val: byte, ghost r: Report)
      requires Ready() && !PageHit(Now(), 1) && cpu.Trusts(Laddr(), 1)
      modifies this`ifLaddr, this`ifXaddr, this`prefetchBase, prefetch
      modifies cpu`mem, cpu`cr2, cpu`excerr, cpu`edited, cpu.tab
      ensures cpu.Valid() && cpu.edited <= old(cpu.edited) && FetchStep(old(Now()), Now(), 1, 0, r)
      ensures if ok then r.Got? && r.bs == [val] else r == Refused(Fault(cpu.cr2, cpu.excerr))
    {
      hide Xor, SameEntries, Translate, Walk, FaultsFirst, FetchStep, PageHit, TlbOk;
      val := 0;
      ghost var s := Now();
      var laddr := Laddr();
      var o;
      ok, o := cpu.TranslateAddress(false, user, laddr, 1);
      SameSize(s.mem, cpu.mem);
      if !ok {
        r := Refused(Fault(cpu.cr2, cpu.excerr));
        SameFaults(s, 1, r.f);
        RefusedStep(s, Now(), 1, r.f);
        return;
      }
      assert cpu.TranslateByte(s.mem, false, user, laddr, 0) == Ok(o.addr1);
      val := RememberPage(laddr, o.addr1);
      r := Got([o.addr1], [val]);
      MissedByteStep(s, Now(), o.addr1, val);
    }

    /** The page of a translated address is remembered, and its block buffered unless it is device I/O. */
    method RememberPage(laddr: word, paddr: nat) returns (val: byte)
      requires |cpu.mem| == M32 && prefetch.Length == 16 && paddr < M32
      modifies this`ifLaddr, this`ifXaddr, this`prefetchBase, prefetch
      ensures val == cpu.mem[paddr] && ifLaddr == laddr / FRAME * FRAME && ifXaddr == Xor(paddr, laddr)
      ensures if VgaWindow(paddr) then prefetchBase == NONE && prefetch[..] == old(prefetch[..])
              else prefetchBase == paddr / 16 * 16 && prefetchBase + 16 <= M32
                   && prefetch[..] == cpu.mem[prefetchBase..prefetchBase + 16]
    {
      hide Xor;
      ifLaddr := laddr / FRAME * FRAME;
      ifXaddr := Xor(paddr, laddr);
      if !VgaWindow(paddr) {
        Fill(paddr);
        val := prefetch[paddr % 16];
        assert val == prefetch[..][paddr % 16];
      } else {
        prefetchBase := NONE;
        val := cpu.mem[paddr];
      }
    }

    /** The reference faults of the two modules are the same. */
    lemma SameFaults(s: Snap, size: nat, f: Outcome)
      requires |s.mem| == M32 && s.laddr + size <= M32 && cpu.Faults(s.mem, false, s.user, s.laddr, size, f)
      requires s.pg == cpu.pg && s.cr3 == cpu.cr3 && s.wp == cpu.wp
      ensures FaultsFirst(s, size, f)
    {
      hide Translate;
      var i :| 0 <= i < size && cpu.FirstFault(s.mem, false, s.user, s.laddr, i, f);
      assert Answer(s, i) == f;
      forall j: nat | j < i ensures Answer(s, j).Ok? {
        assert cpu.TranslateByte(s.mem, false, s.user, s.laddr, j).Ok?;
      }
      assert FaultsAt(s, i, f);
    }

    /** fetch8. */
    method Fetch8() returns (ok: bool, val: byte, ghost r: Report)
      requires Ready() && MayFetch(1)
      modifies this`nextIp, this`ifLaddr, this`ifXaddr, this`prefetchBase, prefetch
      modifies cpu`mem, cpu`cr2, cpu`excerr, cpu`edited, cpu.tab
      ensures Ready() && cpu.edited <= old(cpu.edited) && Step(Op.Fetch8, old(Now()), Now(), r)
      ensures if ok then r.Got? && r.bs == [val] else r == Refused(Fault(cpu.cr2, cpu.excerr))
    {
      hide Xor, SameEntries, Translate, Walk, ServedBytes, ServedAddrs, Right, FaultsFirst;
      ok, val, r := Peek8();
      if ok {
        Advance(1);
      }
    }

    /** next_ip moves on, and the linear address with it. */
    method Advance(n: nat)
      requires n <= 4
      modifies this`nextIp
      ensures Laddr() == (old(Laddr()) + n) % 0x1_0000_0000
    {
      ghost var a, q := csBase + nextIp, (csBase + nextIp) / 0x1_0000_0000;
      ghost var p := (nextIp + n) / 0x1_0000_0000;
      nextIp := (nextIp + n) % 0x1_0000_0000;
      ModMultiple(a % 0x1_0000_0000 + n, q, 0x1_0000_0000);
      ModMultiple(csBase + nextIp, p, 0x1_0000_0000);
    }

    /** The slow path of fetch16 and fetch32: translate, load, and drop the buffer. */
    method FetchSlow(size: nat) returns (ok: bool, val: nat, ghost r: Report)
      requires Ready() && (size == 2 || size == 4) && Laddr() + size <= M32 && !PageHit(Now(), size)
      requires cpu.Trusts(Laddr(), size)
      modifies this`prefetchBase, cpu`mem, cpu`cr2, cpu`excerr, cpu`edited, cpu.tab
      ensures cpu.Valid() && cpu.edited <= old(cpu.edited) && FetchStep(old(Now()), Now(), size, 0, r)
      ensures if ok then r.Got? && val == FromBytes(r.bs) else r == Refused(Fault(cpu.cr2, cpu.excerr))
    {
      hide Xor, SameEntries, Translate, Walk, FaultsFirst, Right, PageHit, VgaWindow, TlbOk;
      ghost var bs;
      ok, val, bs := cpu.CpuLoad(user, Laddr(), size);
      if !ok {
        r := Refused(Fault(cpu.cr2, cpu.excerr));
        SameFaults(old(Now()), size, r.f);
        return;
      }
      prefetchBase := NONE;
      r := Got(AnswerAddrs(old(Now()), size), bs);
      SameAnswers(old(Now()), cpu.mem, bs);
    }

    /** And so are the reference answers. */
    lemma SameAnswers(s: Snap, now: seq<byte>, bs: seq<byte>)
      requires |s.mem| == |now| == M32 && s.laddr + |bs| <= M32
      requires cpu.Individually(s.mem, now, s.user, false, s.laddr, bs)
      requires s.pg == cpu.pg && s.cr3 == cpu.cr3 && s.wp == cpu.wp
      ensures Right(s, now, AnswerAddrs(s, |bs|), bs)
    {
      hide Translate;
      forall i | 0 <= i < |bs|
        ensures Answer(s, i) == Ok(AnswerAddrs(s, |bs|)[i])
        ensures Answer(s, i).paddr < M32 && now[Answer(s, i).paddr] == bs[i]
      {
        assert cpu.TranslateByte(s.mem, false, s.user, s.laddr, i) == Answer(s, i);
      }
    }

    /** fetch16. */
    method Fetch16() returns (ok: bool, val: nat, ghost r: Report)
      requires Ready() && Laddr() + 2 <= M32 && MayFetch(2)
      modifies this`nextIp, this`prefetchBase, prefetch, cpu`mem, cpu`cr2, cpu`excerr, cpu`edited, cpu.tab
      ensures Ready() && cpu.edited <= old(cpu.edited) && Step(Op.Fetch16, old(Now()), Now(), r)
      ensures if ok then r.Got? && val == FromBytes(r.bs) else r == Refused(Fault(cpu.cr2, cpu.excerr))
    {
      hide Xor, SameEntries, Translate, Walk, ServedBytes, ServedAddrs, Right, FaultsFirst;
      if Xor(Laddr(), ifLaddr) < 4095 {
        val, r := Fetch16Cached();
        ok := true;
      } else {
        ok, val, r := FetchSlow(2);
        if !ok {
          StepShape(Op.Fetch16, old(Now()), Now(), r);
          return;
        }
      }
      Advance(2);
      StepShape(Op.Fetch16, old(Now()), Now(), r);
    }

    method Fetch16Cached() returns (val: nat, ghost r: Report)
      requires Ready() && Laddr() + 2 <= M32 && PageHit(Now(), 2)
      modifies this`prefetchBase, prefetch
      ensures FetchStep(old(Now()), Now(), 2, 0, r) && r.Got? && val == FromBytes(r.bs)
    {
      hide Xor, SameEntries, FetchStep, Covered, ServedBytes, ServedAddrs, TlbOk, PageHit;
      ghost var s := Now();
      ServedFits(s, 2);
      CoveredServes(s, 2);
      var paddr := CoverPage();
      var off := paddr % 16;
      var lo: nat, hi: nat;
      if off <= 14 {
        lo, hi := prefetch[off], prefetch[off + 1];
        assert prefetch[..][off..off + 2] == [lo, hi];
      } else {
        lo, hi := prefetch[15], cpu.mem[paddr + 1];
      }
      val := lo + 256 * hi;
      r := Got(ServedAddrs(s, 2), ServedBytes(s, 2));
      ServedStep(s, Now(), 2);
      FromBytes2(lo, hi);
    }

    /** fetch32. */
    method Fetch32() returns (ok: bool, val: nat, ghost r: Report)
      requires Ready() && Laddr() + 4 <= M32 && MayFetch(4)
      modifies this`nextIp, this`prefetchBase, prefetch, cpu`mem, cpu`cr2, cpu`excerr, cpu`edited, cpu.tab
      ensures Ready() && cpu.edited <= old(cpu.edited) && Step(Op.Fetch32, old(Now()), Now(), r)
      ensures if ok then r.Got? && val == FromBytes(r.bs) else r == Refused(Fault(cpu.cr2, cpu.excerr))
    {
      hide Xor, SameEntries, Translate, Walk, ServedBytes, ServedAddrs, Right, FaultsFirst;
      if Xor(Laddr(), ifLaddr) < 4093 {
        val, r := Fetch32Cached();
        ok := true;
      } else {
        ok, val, r := FetchSlow(4);
        if !ok {
          StepShape(Op.Fetch32, old(Now()), Now(), r);
          return;
        }
      }
      Advance(4);
      StepShape(Op.Fetch32, old(Now()), Now(), r);
    }

    method Fetch32Cached() returns (val: nat, ghost r: Report)
      requires Ready() && Laddr() + 4 <= M32 && PageHit(Now(), 4)
      modifies this`prefetchBase, prefetch
      ensures FetchStep(old(Now()), Now(), 4, 0, r) && r.Got? && val == FromBytes(r.bs)
    {
      hide Xor, SameEntries, FetchStep, Covered, ServedBytes, ServedAddrs, Dword, TlbOk, PageHit;
      ghost var s := Now();
      ServedFits(s, 4);
      CoveredServes(s, 4);
      var paddr := CoverPage();
      var off := paddr % 16;
      if off <= 12 {
        val := BufferedDword(off);
      } else {
        DwordBytes(cpu.mem, paddr);
        val := Dword(cpu.mem, paddr);
        prefetchBase := NONE;
      }
      r := Got(ServedAddrs(s, 4), ServedBytes(s, 4));
      ServedStep(s, Now(), 4);
    }

    method BufferedDword(off: nat) returns (val: nat)
      requires prefetch.Length == 16 && off <= 12
      ensures val == FromBytes(prefetch[..][off..off + 4])
    {
      var b0: nat, b1: nat, b2: nat, b3: nat := prefetch[off], prefetch[off + 1], prefetch[off + 2], prefetch[off + 3];
      val := b0 + 256 * b1 + 65536 * b2 + 16777216 * b3;
      assert prefetch[..][off..off + 4] == [b0, b1, b2, b3];
      FromBytes4(b0, b1, b2, b3);
    }

    // ----- What happens between fetches -----

    /** The privilege level that set_seg takes from a new code segment. */
    method SetCpl(newUser: bool)
      requires Ready()
      modifies this`user
      ensures Ready() && Step(Op.SetCpl(newUser), old(Now()), Now(), Silent)
    {
      user := newUser;
    }

    /** A taken branch: a new address and PREFETCH_RESET. */
    method Jump(newCsBase: word, newIp: word)
      requires Ready()
      modifies this`csBase, this`nextIp, this`prefetchBase
      ensures Ready() && Step(Op.Jump(newCsBase, newIp), old(Now()), Now(), Silent)
    {
      csBase, nextIp, prefetchBase := newCsBase, newIp, NONE;
    }

    /** MOV CR3, with the whole of tlb_clear: it makes good whatever was edited before. */
    method MovToCr3(v: word)
      requires IsShape(Now()) && cpu.Shaped()
      modifies this`ifLaddr, this`prefetchBase, cpu`cr3, cpu`edited, cpu.tab
      ensures Ready() && cpu.edited == {} && Step(LoadCr3(v), old(Now()), Now(), Silent)
    {
      hide Walk, Xor;
      cpu.MovToCr3(v);
      ifLaddr, prefetchBase := NONE, NONE;
    }

    /** MOV CR0: tlb_clear exactly when PG, WP or PE changes. */
    method MovToCr0(pg: bool, wp: bool, peChanges: bool)
      requires IsShape(Now()) && cpu.Shaped() && (cpu.Clears(pg, wp, peChanges) || cpu.Valid())
      modifies this`ifLaddr, this`prefetchBase, cpu`pg, cpu`wp, cpu`edited, cpu.tab
      ensures Ready() && Step(LoadCr0(pg, wp, peChanges), old(Now()), Now(), Silent)
      ensures cpu.edited == if old(cpu.Clears(pg, wp, peChanges)) then {} else old(cpu.edited)
    {
      hide Walk, Xor;
      var cleared := cpu.MovToCr0(pg, wp, peChanges);
      if cleared {
        ifLaddr, prefetchBase := NONE, NONE;
      }
    }

    /** INVLPG clears everything. */
    method Invlpg()
      requires IsShape(Now()) && cpu.Shaped()
      modifies this`ifLaddr, this`prefetchBase, cpu`edited, cpu.tab
      ensures Ready() && cpu.edited == {} && Step(Op.Invlpg, old(Now()), Now(), Silent)
    {
      hide Walk, Xor;
      cpu.TlbClear();
      ifLaddr, prefetchBase := NONE, NONE;
    }

    /** A data read may set accessed bits. */
    method DataLoad(at: word, size: nat) returns (ok: bool, val: nat, ghost bs: seq<byte>)
      requires Ready() && (size == 1 || size == 2 || size == 4) && at + size <= M32 && cpu.Trusts(at, size)
      modifies cpu`mem, cpu`cr2, cpu`excerr, cpu`edited, cpu.tab
      ensures Ready() && cpu.edited <= old(cpu.edited) && Step(Op.DataLoad(at, size), old(Now()), Now(), Silent)
      ensures ok ==> |bs| == size && val == FromBytes(bs)
      ensures ok ==> cpu.Individually(old(cpu.mem), cpu.mem, user, false, at, bs)
      ensures !ok ==> cpu.Faults(old(cpu.mem), false, user, at, size, Fault(cpu.cr2, cpu.excerr))
    {
      hide SameEntries, Walk, Xor, Translate, TlbOk;
      ok, val, bs := cpu.CpuLoad(user, at, size);
      SameSize(old(cpu.mem), cpu.mem);
    }

    /** A data write, which may edit page tables. */
    method DataStore(at: word, size: nat, v: nat) returns (ok: bool)
      requires Ready() && (size == 1 || size == 2 || size == 4) && at + size <= M32 && cpu.Trusts(at, size)
      modifies cpu`mem, cpu`cr2, cpu`excerr, cpu`edited, cpu.tab
      ensures Ready() && Step(Op.DataStore(at, size, v), old(Now()), Now(), Silent)
      ensures cpu.edited <= old(cpu.edited) + Edits(old(cpu.mem), cpu.mem, cpu.cr3)
      ensures ok ==> cpu.Individually(old(cpu.mem), cpu.mem, user, true, at, ToBytes(v, size))
      ensures !ok ==> cpu.Faults(old(cpu.mem), true, user, at, size, Fault(cpu.cr2, cpu.excerr))
    {
      hide SameEntries, Walk, Xor, Translate, TlbOk, Edits;
      ghost var mid;
      ok, mid := cpu.CpuStore(user, at, size, v);
    }

    // ----- Runs -----

    /** No access of the step runs over the end of the linear space. */
    predicate InBounds(op: Op)
      reads this
    {
      match op
      case DataLoad(at, size) => (size == 1 || size == 2 || size == 4) && at + size <= M32
      case DataStore(at, size, _) => (size == 1 || size == 2 || size == 4) && at + size <= M32
      case _ => Laddr() + FetchSize(op) <= M32
    }

    /** Nor does it go through a cached translation that was edited and not flushed. */
    predicate Possible(op: Op)
      requires cpu.Shaped()
      reads this, cpu, cpu.tab
    {
      && InBounds(op)
      && (FetchSize(op) > 0 ==> MayFetch(FetchSize(op)))
      && (op.DataLoad? || op.DataStore? ==> cpu.Trusts(op.at, op.size))
    }

    /** The first and the last page a step touches. */
    function TouchedPages(op: Op): (pages: set<nat>)
      requires InBounds(op)
      reads this
    {
      if FetchSize(op) > 0 then {Laddr() / FRAME, (Laddr() + FetchSize(op) - 1) / FRAME}
      else if op.DataLoad? || op.DataStore? then {op.at / FRAME, (op.at + op.size - 1) / FRAME}
      else {}
    }

    /** A step in bounds that touches no edited page is possible. */
    lemma UneditedPossible(op: Op)
      requires Ready() && InBounds(op) && TouchedPages(op) !! cpu.edited
      ensures Possible(op)
    {
      hide TlbOk, EntryOk, Walk, Xor;
      if FetchSize(op) > 0 {
        cpu.UneditedTrusted(Laddr(), FetchSize(op));
      } else if op.DataLoad? || op.DataStore? {
        cpu.UneditedTrusted(op.at, op.size);
      }
    }

    /** One step of a run. */
    method Do(op: Op) returns (ghost r: Report)
      requires Ready() && Possible(op)
      modifies this, prefetch, cpu, cpu.tab
      ensures Ready() && old(Laddr()) + FetchSize(op) <= M32 && Step(op, old(Now()), Now(), r)
      ensures Flushes(op, old(Now())) ==> cpu.edited == {}
      ensures cpu.edited <= old(cpu.edited) + if op.DataStore? then Edits(old(cpu.mem), cpu.mem, old(cpu.cr3)) else {}
    {
      hide Step, IsShape, Xor, Edits, TlbOk, EntryOk;
      r := Silent;
      match op
      case Peek8 => { var ok, v; ok, v, r := Peek8(); }
      case Fetch8 => { var ok, v; ok, v, r := Fetch8(); }
      case Fetch16 => { var ok, v; ok, v, r := Fetch16(); }
      case Fetch32 => { var ok, v; ok, v, r := Fetch32(); }
      case SetCpl(u) => SetCpl(u);
      case Jump(cs, ip) => Jump(cs, ip);
      case LoadCr3(v) => MovToCr3(v);
      case LoadCr0(pg, wp, pe) => MovToCr0(pg, wp, pe);
      case Invlpg => Invlpg();
      case DataLoad(at, size) => { var ok, v, bs := DataLoad(at, size); }
      case DataStore(at, size, v) => { var ok := DataStore(at, size, v); }
    }

    /**
     Any sequence of steps is a run of the machine, page-table edits and flushes
     included.  It ends early only at an access past 4 GB or at one to a page whose
     tables were edited since the last flush.
     */
    method Run(ops: seq<Op>) returns (done: nat, ghost states: seq<Snap>, ghost reports: seq<Report>)
      requires Ready()
      modifies this, prefetch, cpu, cpu.tab
      ensures Ready() && done <= |ops| && |states| == done + 1
      ensures IsRun(ops[..done], states, reports) && states[0] == old(Now()) && states[done] == Now()
      ensures WholeMemories(states) && cpu.edited <= EditedBy(old(cpu.edited), ops[..done], states)
      ensures done < |ops| && InBounds(ops[done]) ==> !(TouchedPages(ops[done]) !! cpu.edited)
    {
      hide Step, IsShape, Edits, TlbOk, EntryOk, Xor;
      done, states, reports := 0, [Now()], [];
      while done < |ops| && Possible(ops[done])
        invariant done <= |ops| && |states| == done + 1 && Ready()
        invariant IsRun(ops[..done], states, reports) && states[0] == old(Now()) && states[done] == Now()
        invariant WholeMemories(states) && cpu.edited <= EditedBy(old(cpu.edited), ops[..done], states)
        decreases |ops| - done
      {
        ghost var r;
        r := Do(ops[done]);
        RunSnoc(ops[..done], states, reports, ops[done], Now(), r);
        EditedSnoc(old(cpu.edited), ops[..done], states, ops[done], Now());
        assert ops[..done] + [ops[done]] == ops[..done + 1];
        states, reports, done := states + [Now()], reports + [r], done + 1;
      }
      if done < |ops| && InBounds(ops[done]) && TouchedPages(ops[done]) !! cpu.edited {
        UneditedPossible(ops[done]);
      }
    }
  }

  /** The addresses of a walk that succeeds. */
  function AnswerAddrs(s: Snap, size: nat): (ats: seq<nat>)
    requires |s.mem| == M32 && s.laddr + size <= M32
  {
    seq(size, i requires 0 <= i < size => match Answer(s, i) { case Ok(p) => p case Fault(_, _) => 0 })
  }

  lemma ServedStep(s: Snap, t: Snap, size: nat)
    requires Fits(s, size) && Served(s) < M32
    requires t == s.(base := if size == 4 && Served(s) % 16 > 12 then NONE else Covered(s).0, buf := Covered(s).1)
    ensures FetchStep(s, t, size, 0, Got(ServedAddrs(s, size), ServedBytes(s, size)))
  {
    hide Xor, SameEntries, PageHit, Covered, ServedByte;
    SameRefl(s.mem);
    ServedFits(s, size);
  }

  lemma RefusedStep(s: Snap, t: Snap, size: nat, f: Outcome)
    requires IsShape(s) && (size == 1 || size == 2 || size == 4) && s.laddr + size <= M32 && !PageHit(s, size)
    requires t == s.(mem := t.mem) && |t.mem| == M32 && SameEntries(s.mem, t.mem) && FaultsFirst(s, size, f)
    ensures FetchStep(s, t, size, 0, Refused(f))
  {
  }

  lemma MissedByteStep(s: Snap, t: Snap, a: nat, v: byte)
    requires IsShape(s) && !PageHit(s, 1) && |t.mem| == M32 && SameEntries(s.mem, t.mem)
    requires Answer(s, 0) == Ok(a) && a < M32 && t.mem[a] == v
    requires t == s.(mem := t.mem, ifLaddr := s.laddr / FRAME * FRAME, ifXaddr := Xor(a, s.laddr),
                     base := t.base, buf := t.buf)
    requires if VgaWindow(a) then t.base == NONE && t.buf == s.buf
             else t.base == a / 16 * 16 && t.base + 16 <= M32 && t.buf == t.mem[t.base..t.base + 16]
    ensures FetchStep(s, t, 1, 0, Got([a], [v]))
  {
    hide Xor, SameEntries, PageHit, Walk, Translate, Answer;
    assert Right(s, t.mem, [a], [v]);
  }

  lemma RunSnoc(ops: seq<Op>, states: seq<Snap>, reports: seq<Report>, op: Op, t: Snap, r: Report)
    requires IsRun(ops, states, reports) && states[|ops|].laddr + FetchSize(op) <= M32
    requires Step(op, states[|ops|], t, r) && IsShape(t)
    ensures IsRun(ops + [op], states + [t], reports + [r])
  {
    hide Step, IsShape;
  }
}
