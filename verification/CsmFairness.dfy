/**
 Every run of a CSM block in which both cores keep going comes to an end: within a
 bound that depends on the length of the block alone, core 1 reports completion or the
 block is stuck.
 */
module CsmFairness {
  import opened CsmDma
  import opened CsmLiveness
  import opened GuestMemory
  import opened Arith

  /** Completion has been reported, or never will be. */
  predicate Ended(s: State) { s.blocked || Stuck(s) }

  /** Core 1 waiting for a byte goes round in two steps; both count alike. */
  function WaitRank(c: Consumer): (n: nat)
    ensures n <= 8
  {
    if Looking(c) then 4 else ConsumerRank(c)
  }

  /** A bound on what is left to do within one byte. */
  function Little(s: State): (n: nat)
    ensures n < 5508
  {
    WaitRank(s.consumer) * 612 + (if s.dreq then 306 else 0) + ProducerRank(s.producer)
  }

  /** Bytes left to fetch and, within each, bytes left to play. */
  function Bytes(left: int, unplayed: int, all: nat): (n: int) { left * (all + 1) + unplayed }

  function Left(s: State): (n: int) {
    Bytes(|s.block| - s.pos, |s.block| - s.taken, |s.block|) * 5508 + Little(s)
  }

  lemma LeftNonNeg(s: State)
    requires Inv(s)
    ensures Left(s) >= 0
  {
    hide Inv;
    Known(s);
    MulNonNeg(|s.block| - s.pos, |s.block| + 1);
  }

  lemma FewerBytes(a: int, b: int, a2: int, b2: int, all: nat)
    requires 0 <= a2 <= a && 0 <= b <= all && 0 <= b2 <= all
    requires a2 < a || b2 < b
    ensures Bytes(a2, b2, all) + 1 <= Bytes(a, b, all)
  {
    if a2 < a {
      MulDistrib(a - a2, a2, all + 1);
      MulDistrib(a - a2 - 1, 1, all + 1);
      MulNonNeg(a - a2 - 1, all + 1);
    }
  }

  /** Progress in bytes, or within a byte. */
  lemma LeftFalls(s: State, t: State)
    requires Inv(s) && Inv(t) && t.block == s.block && t.pos >= s.pos
    requires if t.pos == s.pos then t.taken > s.taken || (t.taken == s.taken && Little(t) < Little(s)) else true
    ensures Left(t) < Left(s)
  {
    hide Inv, Little, Bytes;
    Known(s);
    Known(t);
    if t.pos > s.pos || t.taken > s.taken {
      FewerBytes(|s.block| - s.pos, |s.block| - s.taken, |s.block| - t.pos, |s.block| - t.taken, |s.block|);
    }
  }

  /** ---- No step goes back ---- */

  /** What a step that achieves nothing looks like. */
  predicate Waits(s: State, m: Move, t: State) {
    match m
    case Service => t == s
    case Core0 => t == s && s.producer == PIdle && !s.dreq
    case Core1 =>
      && Looking(s.consumer) && t == s.(consumer := if s.consumer == CIdle then CLoadedP(s.fifoP) else CIdle)
      && (s.taken < s.pos ==> s.consumer == CIdle)
  }

  lemma CloserFalls(s: State, t: State)
    requires Inv(s) && Inv(t) && Closer(t, s) && t.consumer == s.consumer
    ensures Left(t) < Left(s)
  {
    hide Inv;
    LeftFalls(s, t);
  }

  lemma ProducerFalls(s: State)
    requires Inv(s) && !Ended(s)
    ensures |s.fifo| == FIFO_LEN
    ensures Waits(s, Core0, ProducerStep(s)) || Left(ProducerStep(s)) < Left(s)
  {
    hide Inv, Closer, Left;
    Known(s);
    if s.producer == PIdle && !s.dreq {
      hide Look, CopyOn;
    } else {
      hide ProducerStep;
      ProducerAdvances(s);
      ProducerFrame(s);
      ProducerKeeps(s);
      CloserFalls(s, ProducerStep(s));
    }
  }

  lemma ConsumerFalls(s: State)
    requires Inv(s) && !s.blocked
    ensures |s.fifo| == FIFO_LEN
    ensures var t := ConsumerStep(s); t.blocked || Waits(s, Core1, t) || Left(t) < Left(s)
  {
    hide Inv, Left, ConsumerStep, Waits;
    Known(s);
    ConsumerKeeps(s);
    match s.consumer
    case CIdle => LookFalls(s);
    case CLoadedP(_) => LookFalls(s);
    case CLoaded(_, _, _) => PlayFalls(s);
    case CSample(_, _, _, _) => PlayFalls(s);
    case CPlayed(_, _, _) => PlayFalls(s);
    case _ => EndFalls(s);
  }

  lemma LookFalls(s: State)
    requires Inv(s) && !s.blocked && Looking(s.consumer) && |s.fifo| == FIFO_LEN && Inv(ConsumerStep(s))
    ensures Waits(s, Core1, ConsumerStep(s)) || Left(ConsumerStep(s)) < Left(s)
  {
    hide Inv, Left;
    Known(s);
    var t := ConsumerStep(s);
    if s.consumer.CIdle? {
      assert t == s.(consumer := CLoadedP(s.fifoP));
    } else if s.taken == s.pos {
      assert t == s.(consumer := CIdle);
    } else {
      assert t == s.(consumer := CLoaded(s.consumer.p, s.fifoQ, s.pos), stale := false);
      LeftFalls(s, t);
    }
  }

  lemma PlayFalls(s: State)
    requires Inv(s) && !s.blocked && |s.fifo| == FIFO_LEN && Inv(ConsumerStep(s))
    requires s.consumer.CLoaded? || s.consumer.CSample? || s.consumer.CPlayed?
    ensures Left(ConsumerStep(s)) < Left(s)
  {
    hide Inv, Left, Wrapped, Masked;
    Known(s);
    LeftFalls(s, ConsumerStep(s));
  }

  lemma EndFalls(s: State)
    requires Inv(s) && !s.blocked && |s.fifo| == FIFO_LEN && Inv(ConsumerStep(s))
    requires s.consumer.CStored? || s.consumer.CWake? || s.consumer.CHold? || s.consumer.CFinish?
    ensures ConsumerStep(s).blocked || Left(ConsumerStep(s)) < Left(s)
  {
    hide Inv, Left;
    Known(s);
    if !ConsumerStep(s).blocked { LeftFalls(s, ConsumerStep(s)); }
  }

  /** ---- Rounds ---- */

  function Turns(r: seq<Move>): (n: nat) {
    if r == [] then 0 else (if r[0] == Core1 then 1 else 0) + Turns(r[1..])
  }

  /** A stretch of a run in which core 0 gets a step and core 1 gets two. */
  predicate Fair(r: seq<Move>) { Core0 in r && Turns(r) >= 2 }

  lemma StepFalls(s: State, m: Move)
    requires Inv(s) && !Ended(s)
    ensures |s.fifo| == FIFO_LEN
    ensures var t := Step(s, m); Ended(t) || Waits(s, m, t) || Left(t) < Left(s)
  {
    hide Inv, ProducerStep, ConsumerStep, Left, Stuck;
    Known(s);
    match m
    case Core0 => ProducerFalls(s);
    case Core1 => ConsumerFalls(s);
    case Service =>
  }

  lemma BlockedStays(s: State, m: Move)
    requires Inv(s) && s.blocked
    ensures |s.fifo| == FIFO_LEN && Step(s, m).blocked
  {
    hide Inv, ProducerStep, ConsumerStep;
    Sized(s);
    match m
    case Core0 => ProducerFrame(s);
    case Core1 => ConsumerBlocked(s);
    case Service =>
  }

  lemma ConsumerBlocked(s: State)
    requires Inv(s) && s.blocked
    ensures |s.fifo| == FIFO_LEN && ConsumerStep(s).blocked
  {
    hide Contents, LastAlone, ProducerOk, ConsumerOk, InOrder;
    assert s.consumer == CIdle || s.consumer == CFinish;
  }

  lemma {:induction false} EndedStays(s: State, moves: seq<Move>)
    requires Inv(s) && Ended(s)
    ensures |s.fifo| == FIFO_LEN && Ended(Run(s, moves))
    decreases |moves|
  {
    hide Inv, Step, Stuck;
    Sized(s);
    if moves != [] {
      if s.blocked { BlockedStays(s, moves[0]); } else { StuckStep(s, moves[0]); }
      StepKeeps(s, moves[0]);
      EndedStays(Step(s, moves[0]), moves[1..]);
    }
  }

  /** What must hold at the start of a stretch that achieves nothing. */
  predicate AtRest(s: State, r: seq<Move>) {
    && (Core0 in r ==> s.producer == PIdle && !s.dreq)
    && (Turns(r) > 0 ==> Looking(s.consumer))
    && (s.taken < s.pos ==> Turns(r) <= if s.consumer == CIdle then 1 else 0)
  }

  lemma RestStep(s: State, m: Move, t: State, r: seq<Move>)
    requires r != [] && r[0] == m && Waits(s, m, t) && AtRest(t, r[1..])
    ensures AtRest(s, r)
  {
    assert Core0 in r <==> r[0] == Core0 || Core0 in r[1..];
  }

  lemma {:induction false} LazyStretch(s: State, r: seq<Move>)
    requires Inv(s) && |s.fifo| == FIFO_LEN && !Ended(Run(s, r))
    ensures Left(Run(s, r)) <= Left(s) && (Left(Run(s, r)) == Left(s) ==> AtRest(s, r))
    decreases |r|
  {
    hide Inv, Left, Step, Stuck, Waits, AtRest;
    if r == [] {
      RestNothing(s, r);
    } else {
      var t := Step(s, r[0]);
      if Ended(s) { EndedStays(s, r); }
      StepKeeps(s, r[0]);
      Sized(t);
      if Ended(t) { EndedStays(t, r[1..]); }
      StepFalls(s, r[0]);
      LazyStretch(t, r[1..]);
      if Waits(s, r[0], t) {
        SameLeft(s, r[0], t);
        if AtRest(t, r[1..]) { RestStep(s, r[0], t, r); }
      }
    }
  }

  lemma RestNothing(s: State, r: seq<Move>)
    requires |r| == 0
    ensures AtRest(s, r)
  {
  }

  lemma SameLeft(s: State, m: Move, t: State)
    requires Waits(s, m, t)
    ensures Left(t) == Left(s)
  {
  }

  /** Every fair stretch achieves something. */
  lemma RoundFalls(s: State, r: seq<Move>)
    requires Inv(s) && |s.fifo| == FIFO_LEN && Fair(r) && !Ended(Run(s, r))
    ensures Left(Run(s, r)) < Left(s)
  {
    hide Inv, Left, Run;
    LazyStretch(s, r);
    EndedBefore(s, r);
    Known(s);
  }

  lemma EndedBefore(s: State, r: seq<Move>)
    requires Inv(s) && |s.fifo| == FIFO_LEN && !Ended(Run(s, r))
    ensures !Ended(s)
  {
    hide Inv, Run, Stuck;
    if Ended(s) { EndedStays(s, r); }
  }

  function Join(rounds: seq<seq<Move>>): (moves: seq<Move>) {
    if rounds == [] then [] else rounds[0] + Join(rounds[1..])
  }

  lemma {:induction false} RunJoin(s: State, a: seq<Move>, b: seq<Move>)
    requires |s.fifo| == FIFO_LEN
    ensures Run(s, a + b) == Run(Run(s, a), b)
    decreases |a|
  {
    hide Step;
    if a == [] {
      assert a + b == b;
    } else {
      assert (a + b)[1..] == a[1..] + b;
      RunJoin(Step(s, a[0]), a[1..], b);
    }
  }

  lemma {:induction false} FairRunEnds(s: State, rounds: seq<seq<Move>>)
    requires Inv(s) && |s.fifo| == FIFO_LEN && |rounds| > Left(s) && forall i :: 0 <= i < |rounds| ==> Fair(rounds[i])
    ensures Ended(Run(s, Join(rounds)))
    decreases |rounds|
  {
    hide Inv, Left, Run, Stuck, Fair;
    LeftNonNeg(s);
    var t := Run(s, rounds[0]);
    RunKeeps(s, rounds[0]);
    Sized(t);
    RunJoin(s, rounds[0], Join(rounds[1..]));
    if Ended(t) {
      EndedStays(t, Join(rounds[1..]));
    } else {
      RoundFalls(s, rounds[0]);
      FairRunEnds(t, rounds[1..]);
    }
  }

  /** However the cores interleave, a block ends or gets stuck within this many fair rounds. */
  lemma EveryFairRunEnds(block: seq<byte>, irqEnabled: bool, fifo: seq<byte>, base: nat, rounds: seq<seq<Move>>)
    requires |block| > 0 && |fifo| == FIFO_LEN && base < WRAP
    requires |rounds| >= (|block| + 1) * (|block| + 1) * 5508
    requires forall i :: 0 <= i < |rounds| ==> Fair(rounds[i])
    ensures var t := Run(Start(block, irqEnabled, fifo, base), Join(rounds)); t.blocked || Drained(t) || Stalled(t)
  {
    hide Run, Little, Drained, Stalled;
    var s := Start(block, irqEnabled, fifo, base);
    StartInv(block, irqEnabled, fifo, base);
    assert Bytes(|block|, |block|, |block|) + 1 == (|block| + 1) * (|block| + 1);
    assert Left(s) == Bytes(|block|, |block|, |block|) * 5508 + Little(s);
    FairRunEnds(s, rounds);
  }
}
