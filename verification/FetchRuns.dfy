/**
 Instruction fetch as a state machine: fetches, ring changes, jumps, TLB flushes
 and data accesses, in any order.
 */
module FetchRuns {
  import opened GuestMemory
  import opened PageWalk
  import opened Mmu
  import opened FetchPage
  import opened Arith
  import opened Wrappers

  datatype Op =
    | Peek8 | Fetch8 | Fetch16 | Fetch32
    | SetCpl(user: bool)                                // set_seg on CS
    | Jump(csBase: word, ip: word)
    | LoadCr3(cr3: word)
    | LoadCr0(pg: bool, wp: bool, peChanges: bool)
    | Invlpg
    | DataLoad(at: word, size: nat)
    | DataStore(at: word, size: nat, v: nat)

  /** What a step reports: the bytes of a fetch with their addresses, or the fault it took. */
  datatype Report = Silent | Got(ats: seq<nat>, bs: seq<byte>) | Refused(f: Outcome)

  function FetchSize(op: Op): (size: nat) {
    match op
    case Peek8 => 1
    case Fetch8 => 1
    case Fetch16 => 2
    case Fetch32 => 4
    case _ => 0
  }

  /** Tag and buffer once they cover the address. */
  function Covered(s: Snap): (r: (nat, seq<byte>))
    requires |s.mem| == M32 && Served(s) < M32
  {
    if Hit(Served(s), s.base) then (s.base, s.buf)
    else
      var b := Served(s) / 16 * 16;
      (b, s.mem[b..b + 16])
  }

  /** Where the served bytes are once the buffer covers the address. */
  lemma CoveredServes(s: Snap, size: nat)
    requires Fits(s, size) && Served(s) < M32
    ensures |Covered(s).1| == 16 && Served(s) + size <= M32
    ensures var off := Served(s) % 16;
            ServedBytes(s, size) ==
              if off + size <= 16 then Covered(s).1[off..off + size]
              else if size == 2 then [Covered(s).1[15], s.mem[Served(s) + 1]]
              else s.mem[Served(s)..Served(s) + 4]
  {
    hide Xor, PageHit;
    ServedFits(s, size);
    BlockInside(Served(s));
    forall i: nat | i < FromBuffer(Served(s) % 16, size)
      ensures Covered(s).1[Served(s) % 16 + i] == ServedByte(s, size, i)
    {
      CoveredByte(s, size, i);
    }
  }

  lemma CoveredByte(s: Snap, size: nat, i: nat)
    requires Fits(s, size) && Served(s) < M32 && i < FromBuffer(Served(s) % 16, size)
    ensures |Covered(s).1| == 16 && Served(s) % 16 + i < 16
    ensures Covered(s).1[Served(s) % 16 + i] == ServedByte(s, size, i)
  {
    hide Xor, PageHit;
    BlockInside(Served(s));
  }

  /** A fetch from the remembered page. */
  ghost predicate HitStep(s: Snap, t: Snap, size: nat, ats: seq<nat>, bs: seq<byte>)
    requires Fits(s, size)
  {
    ServedFits(s, size);
    var (b, buf) := Covered(s);
    && ats == ServedAddrs(s, size) && bs == ServedBytes(s, size)
    && t.mem == s.mem && t.ifLaddr == s.ifLaddr && t.ifXaddr == s.ifXaddr
    && t.base == (if size == 4 && Served(s) % 16 > 12 then NONE else b) && t.buf == buf
  }

  /** A fetch through the walk; a byte fetch remembers the page and refills the buffer. */
  ghost predicate MissStep(s: Snap, t: Snap, size: nat, ats: seq<nat>, bs: seq<byte>)
    requires |s.mem| == |t.mem| == M32
  {
    && Right(s, t.mem, ats, bs)
    && if size == 1 && |ats| == 1 then
         && t.ifLaddr == s.laddr / FRAME * FRAME && t.ifXaddr == Xor(ats[0], s.laddr)
         && if VgaWindow(ats[0]) then t.base == NONE && t.buf == s.buf
            else t.base == ats[0] / 16 * 16 && t.base + 16 <= M32 && t.buf == t.mem[t.base..t.base + 16]
       else
         t.ifLaddr == s.ifLaddr && t.ifXaddr == s.ifXaddr && t.base == NONE && t.buf == s.buf
  }

  ghost predicate FetchStep(s: Snap, t: Snap, size: nat, advance: nat, r: Report)
    requires IsShape(s) && (size == 1 || size == 2 || size == 4) && s.laddr + size <= M32
  {
    && |t.mem| == M32 && SameEntries(s.mem, t.mem)
    && t.pg == s.pg && t.cr3 == s.cr3 && t.wp == s.wp && t.user == s.user
    && match r
       case Silent => false
       case Got(ats, bs) =>
         && |bs| == size && t.laddr == (s.laddr + advance) % 0x1_0000_0000
         && if PageHit(s, size) then HitStep(s, t, size, ats, bs) else MissStep(s, t, size, ats, bs)
       case Refused(f) =>
         !PageHit(s, size) && FaultsFirst(s, size, f) && t == s.(mem := t.mem)
  }

  /** tlb_clear forgets the page and the buffer, but not what the page translated to. */
  function Forgotten(s: Snap): Snap { s.(ifLaddr := NONE, base := NONE) }

  /** The steps that run tlb_clear. */
  predicate Flushes(op: Op, s: Snap) {
    op.LoadCr3? || op.Invlpg? || (op.LoadCr0? && (op.pg != s.pg || op.wp != s.wp || op.peChanges))
  }

  ghost predicate Step(op: Op, s: Snap, t: Snap, r: Report)
    requires IsShape(s) && s.laddr + FetchSize(op) <= M32
  {
    match op
    case Peek8 => FetchStep(s, t, 1, 0, r)
    case Fetch8 => FetchStep(s, t, 1, if r.Got? then 1 else 0, r)
    case Fetch16 => FetchStep(s, t, 2, 2, r)
    case Fetch32 => FetchStep(s, t, 4, 4, r)
    case SetCpl(user) => r.Silent? && t == s.(user := user)
    case Jump(csBase, ip) => r.Silent? && t == s.(laddr := (csBase + ip) % 0x1_0000_0000, base := NONE)
    case LoadCr3(cr3) => r.Silent? && t == Forgotten(s.(cr3 := cr3))
    case LoadCr0(pg, wp, peChanges) =>
      r.Silent? && t == if Flushes(op, s) then Forgotten(s.(pg := pg, wp := wp)) else s
    case Invlpg => r.Silent? && t == Forgotten(s)
    case DataLoad(_, _) => r.Silent? && t == s.(mem := t.mem) && SameEntries(s.mem, t.mem)
    case DataStore(_, _, _) => r.Silent? && t == s.(mem := t.mem) && |t.mem| == M32
  }

  /** The step did not rewrite the walk of the remembered page. */
  ghost predicate WalkKept(s: Snap, t: Snap) {
    && |s.mem| == |t.mem| == M32
    && (s.ifLaddr < M32 ==> Walk(s.mem, s.cr3, s.ifLaddr / FRAME) == Walk(t.mem, s.cr3, s.ifLaddr / FRAME))
  }

  /** The step did not write to the buffered block. */
  predicate BlockKept(s: Snap, t: Snap) {
    && |s.mem| == |t.mem| == M32
    && (s.base != NONE && s.base + 16 <= M32 ==> s.mem[s.base..s.base + 16] == t.mem[s.base..s.base + 16])
  }

  /** Steps after which the buffer cannot be stale under a real tag, whatever was stored before. */
  predicate Resync(op: Op, s: Snap) {
    op.Jump? || Flushes(op, s)
  }

  /** Steps after which the remembered page is true, whatever was stored before: a flush, or a fresh walk. */
  predicate Renews(op: Op, s: Snap, r: Report) {
    Flushes(op, s) || (FetchSize(op) == 1 && r.Got? && !PageHit(s, 1))
  }

  lemma StepShape(op: Op, s: Snap, t: Snap, r: Report)
    requires IsShape(s) && s.laddr + FetchSize(op) <= M32 && Step(op, s, t, r)
    ensures IsShape(t)
  {
    hide Xor, SameEntries, PageHit, Walk, ServedBytes, ServedAddrs, Answer;
    if op.DataLoad? {
      SameSize(s.mem, t.mem);
    } else if r.Got? {
      var size := FetchSize(op);
      if PageHit(s, size) {
        ServedFits(s, size);
        BlockInside(Served(s));
      } else {
        assert size == 1 ==> |r.ats| == 1;
        if size == 1 { NewPage(s, r.ats[0]); BlockInside(r.ats[0]); }
      }
    }
  }

  lemma BlockInside(a: word)
    ensures a / 16 * 16 % 16 == 0 && a / 16 * 16 + 16 <= M32 && a / 16 * 16 != NONE
  {
    DivModUnique(a / 16 * 16, 16, a / 16, 0);
  }

  /** What a byte fetch remembers of a translated address is a page. */
  lemma NewPage(s: Snap, a: nat)
    requires IsShape(s) && a < M32 && Answer(s, 0) == Ok(a)
    ensures Xor(a, s.laddr) % FRAME == 0 && Xor(a, s.laddr) < M32
    ensures var p := s.laddr / FRAME * FRAME; p % FRAME == 0 && p < M32 && p / FRAME == s.laddr / FRAME
    ensures if s.pg then
              var w := Walk(s.mem, s.cr3, s.laddr / FRAME);
              w.Page? && Xor(a, s.laddr) == Xor(w.frame, s.laddr / FRAME * FRAME)
            else Xor(a, s.laddr) == 0
  {
    hide Xor, Walk;
    var lpgno := s.laddr / FRAME;
    var p := lpgno * FRAME;
    DivModUnique(p, FRAME, lpgno, 0);
    if !s.pg {
      XorSelf(a);
    } else {
      var f := Walk(s.mem, s.cr3, lpgno).frame;
      FrameOfWalk(s.mem, s.cr3, lpgno);
      XorFrame(f, lpgno, s.laddr);
      XorCancels(Xor(f, p), s.laddr);
      XorPage(f, p);
      Powers();
      XorBound(f / FRAME, lpgno, 20);
    }
  }

  /**
   The remembered page stays true through everything but a store to its own
   translation, and is true again after a flush or a byte fetched through the walk.
   */
  lemma StepRemembers(op: Op, s: Snap, t: Snap, r: Report)
    requires IsShape(s) && s.laddr + FetchSize(op) <= M32 && Step(op, s, t, r)
    requires Renews(op, s, r) || (Remembered(s) && (op.DataStore? ==> WalkKept(s, t)))
    ensures |t.mem| == M32 && Remembered(t)
  {
    hide Xor, SameEntries, PageHit, Walk, ServedBytes, ServedAddrs, Answer;
    StepShape(op, s, t, r);
    if r.Got? && FetchSize(op) == 1 && !PageHit(s, 1) {
      assert |r.ats| == 1;
      NewPage(s, r.ats[0]);
      SameWalk(s.mem, t.mem, s.cr3, s.laddr / FRAME);
    } else if t.ifLaddr != NONE && !op.DataStore? {
      assert t.ifLaddr == s.ifLaddr && t.cr3 == s.cr3 && t.pg == s.pg && t.ifXaddr == s.ifXaddr;
      if t.mem != s.mem {
        SameWalk(s.mem, t.mem, s.cr3, s.ifLaddr / FRAME);
      }
    }
  }

  /** The buffer stays true while its block is left alone; a fetch or a flush makes it true by itself. */
  lemma StepBuffers(op: Op, s: Snap, t: Snap, r: Report)
    requires IsShape(s) && s.laddr + FetchSize(op) <= M32 && Step(op, s, t, r)
    requires Resync(op, s) || (Buffered(s) && (r.Got? || BlockKept(s, t)))
    ensures Buffered(t)
  {
    hide Xor, SameEntries, PageHit, Walk, Right, HitStep;
    StepShape(op, s, t, r);
    if !Resync(op, s) {
      if r.Got? {
        if PageHit(s, FetchSize(op)) {
          HitBuffers(s, t, FetchSize(op), r.ats, r.bs);
        }
      } else if t.base != NONE {
        assert t.base == s.base && t.buf == s.buf;
        SameBlock(s, t);
      }
    }
  }

  lemma HitBuffers(s: Snap, t: Snap, size: nat, ats: seq<nat>, bs: seq<byte>)
    requires Fits(s, size) && HitStep(s, t, size, ats, bs) && IsShape(t) && Buffered(s)
    ensures Buffered(t)
  {
    hide Xor, PageHit, ServedBytes, ServedAddrs;
    ServedFits(s, size);
    BlockInside(Served(s));
  }

  lemma SameBlock(s: Snap, t: Snap)
    requires IsShape(s) && IsShape(t) && Buffered(s) && BlockKept(s, t) && t.base == s.base != NONE && t.buf == s.buf
    ensures Buffered(t)
  {
    forall i | 0 <= i < 16 ensures t.buf[i] == t.mem[t.base + i] {
      assert s.mem[s.base..s.base + 16][i] == t.mem[s.base..s.base + 16][i];
    }
  }

  /** A successful fetch answers as a fresh walk of each byte. */
  ghost predicate Answered(s: Snap, t: Snap, r: Report)
    requires |s.mem| == |t.mem| == M32
  {
    r.Got? && Right(s, t.mem, r.ats, r.bs)
  }

  /**
   In any state: a fetch that returns bytes is right unless it hits the remembered
   page and that page or the buffer has been overtaken.
   */
  lemma StepVerdict(op: Op, s: Snap, t: Snap, r: Report)
    requires IsShape(s) && s.laddr + FetchSize(op) <= M32 && Step(op, s, t, r) && r.Got?
    ensures |t.mem| == M32
    ensures Answered(s, t, r) <==>
            (Fits(s, FetchSize(op)) ==> FreshXaddr(s) == Some(s.ifXaddr) && BytesFresh(s, FetchSize(op)))
    ensures Coherent(s) ==> (Answered(s, t, r) <==> !Excepted(s, FetchSize(op)))
  {
    hide Xor, SameEntries, PageHit, Walk, ServedBytes, ServedAddrs, Right;
    hide BytesFresh, FreshXaddr, RingTrap, LastPage, StaleTag;
    var size := FetchSize(op);
    if PageHit(s, size) {
      HitRightIff(s, size);
      if Coherent(s) { CoherentHitIff(s, size); }
    }
  }

  ghost predicate IsRun(ops: seq<Op>, states: seq<Snap>, reports: seq<Report>) {
    && |states| == |ops| + 1 && |reports| == |ops|
    && (forall k :: 0 <= k < |states| ==> IsShape(states[k]))
    && forall k :: 0 <= k < |ops| ==>
         states[k].laddr + FetchSize(ops[k]) <= M32 && Step(ops[k], states[k], states[k + 1], reports[k])
  }

  /** From step `j` to step `n` no store rewrites the walk of the page then remembered. */
  ghost predicate WalksKept(ops: seq<Op>, states: seq<Snap>, j: nat, n: nat)
    requires j <= n <= |ops| && |states| == |ops| + 1
  {
    forall k :: j <= k < n && ops[k].DataStore? ==> WalkKept(states[k], states[k + 1])
  }

  /** From step `i` to step `n` every step that is not a successful fetch leaves the buffered block alone. */
  ghost predicate BlocksKept(states: seq<Snap>, reports: seq<Report>, i: nat, n: nat)
    requires i <= n <= |reports| && |states| == |reports| + 1
  {
    forall k :: i <= k < n && !reports[k].Got? ==> BlockKept(states[k], states[k + 1])
  }

  lemma {:induction false} RunRemembers(ops: seq<Op>, states: seq<Snap>, reports: seq<Report>, j: nat, n: nat)
    requires IsRun(ops, states, reports) && j <= n <= |ops| && WalksKept(ops, states, j, n)
    requires if j == 0 then Remembered(states[0]) else Renews(ops[j - 1], states[j - 1], reports[j - 1])
    ensures Remembered(states[n])
    decreases n - j
  {
    hide Step, Remembered, IsShape, WalkKept, Renews;
    if n == j {
      if j > 0 { StepRemembers(ops[j - 1], states[j - 1], states[j], reports[j - 1]); }
    } else {
      RunRemembers(ops, states, reports, j, n - 1);
      StepRemembers(ops[n - 1], states[n - 1], states[n], reports[n - 1]);
    }
  }

  lemma {:induction false} RunBuffers(ops: seq<Op>, states: seq<Snap>, reports: seq<Report>, i: nat, n: nat)
    requires IsRun(ops, states, reports) && i <= n <= |ops| && BlocksKept(states, reports, i, n)
    requires if i == 0 then Buffered(states[0]) else Resync(ops[i - 1], states[i - 1])
    ensures Buffered(states[n])
    decreases n - i
  {
    hide Step, Buffered, IsShape, BlockKept, Resync;
    if n == i {
      if i > 0 { StepBuffers(ops[i - 1], states[i - 1], states[i], reports[i - 1]); }
    } else {
      RunBuffers(ops, states, reports, i, n - 1);
      StepBuffers(ops[n - 1], states[n - 1], states[n], reports[n - 1]);
    }
  }

  /**
   Over any run, whatever was stored before step `j` and step `i`: if since the last
   flush or walked byte (step `j`) no store rewrote the remembered page's translation,
   and since the last jump or flush (step `i`) none hit the buffered block, every fetch
   that returns bytes is right exactly outside the three exceptions.
   */
  lemma RunVerdicts(ops: seq<Op>, states: seq<Snap>, reports: seq<Report>, j: nat, i: nat, n: nat)
    requires IsRun(ops, states, reports) && j <= n < |ops| && i <= n
    requires if j == 0 then Remembered(states[0]) else Renews(ops[j - 1], states[j - 1], reports[j - 1])
    requires if i == 0 then Buffered(states[0]) else Resync(ops[i - 1], states[i - 1])
    requires WalksKept(ops, states, j, n) && BlocksKept(states, reports, i, n)
    ensures Coherent(states[n])
    ensures reports[n].Got? ==>
              (Answered(states[n], states[n + 1], reports[n]) <==> !Excepted(states[n], FetchSize(ops[n])))
    ensures reports[n].Refused? ==> FaultsFirst(states[n], FetchSize(ops[n]), reports[n].f)
  {
    hide Answered, Excepted, Remembered, Buffered, WalkKept, BlockKept, HitStep, MissStep, FaultsFirst, SameEntries;
    RunRemembers(ops, states, reports, j, n);
    RunBuffers(ops, states, reports, i, n);
    assert Step(ops[n], states[n], states[n + 1], reports[n]);
    if reports[n].Got? {
      StepVerdict(ops[n], states[n], states[n + 1], reports[n]);
    }
  }

  // ----- A stretch of fetches is a stream of bytes -----

  /** What the fetches of a stretch delivered, one after the other, and from where. */
  function Delivered(reports: seq<Report>): (bs: seq<byte>) {
    if reports == [] then []
    else
      var r := reports[|reports| - 1];
      Delivered(reports[..|reports| - 1]) + if r.Got? then r.bs else []
  }

  function Sources(reports: seq<Report>): (ats: seq<nat>) {
    if reports == [] then []
    else
      var r := reports[|reports| - 1];
      Sources(reports[..|reports| - 1]) + if r.Got? then r.ats else []
  }

  /** Only Fetch8, Fetch16 and Fetch32, all successful and outside the three exceptions. */
  ghost predicate CleanFetches(ops: seq<Op>, states: seq<Snap>, reports: seq<Report>)
    requires IsRun(ops, states, reports)
  {
    forall k :: 0 <= k < |ops| ==>
      && (ops[k].Fetch8? || ops[k].Fetch16? || ops[k].Fetch32?)
      && reports[k].Got? && !Excepted(states[k], FetchSize(ops[k]))
  }

  /** Byte `i` of the linear stream from the address of `s` on, taken at `a`; accessed bits may have been set since. */
  ghost predicate StreamByte(s: Snap, i: nat, a: nat, b: byte)
    requires |s.mem| == M32
  {
    s.laddr + i < M32 && Answer(s, i) == Ok(a) && a < M32 && KeptByte(a, s.mem[a], b)
  }

  ghost predicate IsStream(s: Snap, ats: seq<nat>, bs: seq<byte>)
    requires |s.mem| == M32
  {
    |ats| == |bs| && forall i: nat :: i < |bs| ==> StreamByte(s, i, ats[i], bs[i])
  }

  /** The translation state is as it was, but for accessed and dirty bits. */
  ghost predicate SameTables(s: Snap, t: Snap) {
    SameEntries(s.mem, t.mem) && t.pg == s.pg && t.cr3 == s.cr3 && t.wp == s.wp && t.user == s.user
  }

  /**
   Fetches in a row deliver the bytes at the translations of start, start + 1, start + 2
   and so on, without gap or repetition, and the next one starts where they end.
   */
  lemma {:induction false} FetchStream(ops: seq<Op>, states: seq<Snap>, reports: seq<Report>)
    requires IsRun(ops, states, reports) && Coherent(states[0]) && CleanFetches(ops, states, reports)
    requires states[0].laddr + |Delivered(reports)| <= M32
    ensures IsStream(states[0], Sources(reports), Delivered(reports))
    ensures states[|ops|].laddr == (states[0].laddr + |Delivered(reports)|) % 0x1_0000_0000
    ensures Coherent(states[|ops|]) && SameTables(states[0], states[|ops|])
    decreases |ops|
  {
    hide Step, Coherent, Excepted, SameTables, IsStream, IsShape;
    StartStream(states[0]);
    if ops != [] {
      var n := |ops| - 1;
      var os, ss, rs := ops[..n], states[..n + 1], reports[..n];
      assert IsRun(os, ss, rs) && CleanFetches(os, ss, rs);
      FetchStream(os, ss, rs);
      assert Step(ops[n], states[n], states[n + 1], reports[n]);
      NextFetch(ops[n], states[n], states[n + 1], reports[n]);
      StreamGrows(states[0], states[n], states[n + 1], Sources(rs), Delivered(rs), reports[n].ats, reports[n].bs);
    } else {
      CoherentAddress(states[0]);
    }
  }

  lemma CoherentAddress(s: Snap)
    requires Coherent(s)
    ensures |s.mem| == M32 && s.laddr % 0x1_0000_0000 == s.laddr
  {
  }

  lemma StartStream(s: Snap)
    requires Coherent(s)
    ensures |s.mem| == M32 && IsStream(s, [], []) && SameTables(s, s)
  {
    SameRefl(s.mem);
  }

  /** One clean fetch: its bytes are right, and the address moves on by as many. */
  lemma NextFetch(op: Op, s: Snap, t: Snap, r: Report)
    requires Coherent(s) && s.laddr + FetchSize(op) <= M32 && Step(op, s, t, r)
    requires (op.Fetch8? || op.Fetch16? || op.Fetch32?) && r.Got? && !Excepted(s, FetchSize(op))
    ensures |s.mem| == |t.mem| == M32 && Right(s, t.mem, r.ats, r.bs) && |r.bs| > 0
    ensures t.laddr == (s.laddr + |r.bs|) % 0x1_0000_0000 && SameTables(s, t) && Coherent(t)
  {
    hide Right, Excepted, SameEntries, HitStep, MissStep, Remembered, Buffered;
    StepVerdict(op, s, t, r);
    StepShape(op, s, t, r);
    StepRemembers(op, s, t, r);
    StepBuffers(op, s, t, r);
  }

  lemma StreamGrows(s: Snap, u: Snap, t: Snap, ats: seq<nat>, bs: seq<byte>, more: seq<nat>, next: seq<byte>)
    requires |s.mem| == |u.mem| == |t.mem| == M32 && SameTables(s, u) && SameTables(u, t) && IsStream(s, ats, bs)
    requires s.laddr + |bs| + |next| <= M32 && |next| > 0 && u.laddr == (s.laddr + |bs|) % 0x1_0000_0000
    requires Right(u, t.mem, more, next)
    requires t.laddr == (u.laddr + |next|) % 0x1_0000_0000
    ensures IsStream(s, ats + more, bs + next) && SameTables(s, t)
    ensures t.laddr == (s.laddr + |bs + next|) % 0x1_0000_0000
  {
    hide SameEntries, Translate, KeptByte;
    SameEntriesTrans(s.mem, u.mem, t.mem);
    assert u.laddr == s.laddr + |bs|;
    forall i: nat | i < |bs + next| ensures StreamByte(s, i, (ats + more)[i], (bs + next)[i]) {
      if i < |bs| {
        assert StreamByte(s, i, ats[i], bs[i]);
      } else {
        var j := i - |bs|;
        assert Answer(u, j) == Ok(more[j]) && t.mem[more[j]] == next[j];
        SameAnswer(s, u, |bs|, j);
        KeptAt(s.mem, t.mem, more[j]);
      }
    }
  }

  lemma KeptAt(m: seq<byte>, n: seq<byte>, a: nat)
    requires SameEntries(m, n) && a < M32
    ensures |m| == |n| == M32 && KeptByte(a, m[a], n[a])
  {
  }

  lemma SameAnswer(s: Snap, u: Snap, n: nat, j: nat)
    requires |s.mem| == |u.mem| == M32 && SameTables(s, u) && u.laddr == s.laddr + n && u.laddr + j < M32
    ensures Answer(u, j) == Answer(s, n + j)
  {
    hide SameEntries, Translate;
    if s.pg { SameTranslate(s.mem, u.mem, s.cr3, s.wp, false, s.user, u.laddr + j); }
  }

  // ----- Page-table edits over a run -----

  ghost predicate WholeMemories(states: seq<Snap>) {
    forall k :: 0 <= k < |states| ==> |states[k].mem| == M32
  }

  /** The pages whose walk some store of the run changed since the last flush. */
  ghost function EditedBy(start: set<nat>, ops: seq<Op>, states: seq<Snap>): (pages: set<nat>)
    requires |states| == |ops| + 1 && WholeMemories(states)
  {
    if ops == [] then start
    else
      var n := |ops| - 1;
      var s, t := states[n], states[n + 1];
      var before := EditedBy(start, ops[..n], states[..n + 1]);
      if Flushes(ops[n], s) then {}
      else if ops[n].DataStore? then before + Edits(s.mem, t.mem, s.cr3)
      else before
  }

  lemma EditedSnoc(start: set<nat>, ops: seq<Op>, states: seq<Snap>, op: Op, t: Snap)
    requires |states| == |ops| + 1 && WholeMemories(states) && |t.mem| == M32
    ensures EditedBy(start, ops + [op], states + [t]) ==
              var s := states[|ops|];
              if Flushes(op, s) then {}
              else if op.DataStore? then EditedBy(start, ops, states) + Edits(s.mem, t.mem, s.cr3)
              else EditedBy(start, ops, states)
  {
    var os, ss := ops + [op], states + [t];
    assert os[..|ops|] == ops && ss[..|ops| + 1] == states;
  }
}
