/**
 Does a block of the CSM card come to its end?  From every reachable state some
 interleaving still lets core 1 report completion, but for two kinds of state, and
 those are never left.  Both come from a shared value that is used after it has changed.
 */
module CsmLiveness {
  import opened CsmDma
  import opened GuestMemory
  import opened Arith

  predicate Looking(c: Consumer) { c.CIdle? || c.CLoadedP? }

  /** Every byte is played, and core 1 looked at the done flag before it was set. */
  predicate Drained(s: State) {
    && !s.blocked && s.taken == s.pos == |s.block|
    && (Looking(s.consumer) || s.consumer.CWake? || s.consumer.CHold?)
  }

  /** The request is down, or core 0 is bound to lower it on an index it has read before. */
  predicate Lowering(s: State) {
    match s.producer
    case PIdle => !s.dreq
    case PRelease => true
    case PLoadedP(p, _) => Allowance(Wrapped(s.fifoQ - p), |s.block| - s.pos) <= 0
    case _ => false
  }

  /** The FIFO is empty and bytes are left, but nobody will raise the request again. */
  predicate Stalled(s: State) {
    !s.blocked && s.taken == s.pos < |s.block| && Looking(s.consumer) && Lowering(s)
  }

  predicate Stuck(s: State) { Drained(s) || Stalled(s) }

  /** ---- A schedule that makes progress ---- */

  function ConsumerRank(c: Consumer): (n: nat) {
    match c
    case CStored(_, _, _) => 8
    case CWake => 7
    case CHold => 6
    case CIdle => 5
    case CLoadedP(_) => 4
    case CLoaded(_, _, _) => 3
    case CSample(_, _, _, _) => 2
    case CPlayed(_, _, _) => 1
    case CFinish => 0
  }

  function ProducerRank(p: Producer): (n: nat) {
    match p
    case PFinish => 305
    case PDrop => 304
    case PInterrupt => 303
    case PRecheck => 302
    case PIdle => 301
    case PLoadedP(_, _) => 300
    case PCopying(_, _, done) => if done <= 255 then 299 - done else 0
    case PRelease => 2
  }

  /** The block is closer to its end. */
  predicate Closer(t: State, s: State) {
    && t.block == s.block && t.pos >= s.pos
    && (t.pos == s.pos ==>
         && t.taken >= s.taken
         && (t.taken == s.taken ==>
              var a, b := ConsumerRank(t.consumer), ConsumerRank(s.consumer);
              a < b || (a == b && (if t.dreq == s.dreq then ProducerRank(t.producer) < ProducerRank(s.producer)
                                   else s.dreq))))
  }

  /** What the invariant says about the counters and about who has finished. */
  lemma Known(s: State)
    requires Inv(s)
    ensures s.taken <= s.pos <= |s.block| && |s.fifo| == FIFO_LEN && s.pos - s.taken <= 255
    ensures Wrapped(s.fifoQ - s.fifoP) == s.pos - s.taken && (s.fifoP == s.fifoQ <==> s.taken == s.pos)
    ensures s.pos == |s.block| <==> s.producerDone || s.producer == PFinish
    ensures s.producer == PDrop || s.producer == PInterrupt ==> s.producerDone
    ensures Requested(s) && (!s.blocked ==> s.running && !s.consumerDone && s.consumer != CFinish)
    ensures s.consumer.CLoadedP? ==> s.consumer.p == s.fifoP
    ensures s.producer.PCopying? ==>
              var PCopying(_, n, done) := s.producer; done <= n <= 255 && 0 < n && s.pos + n <= |s.block|
    ensures s.producer.PLoadedP? ==> s.pos < |s.block|
    ensures s.consumer.CStored? ==>
              s.consumer.p == s.fifoP && (s.consumer.p == s.consumer.q <== s.taken == s.pos)
  {
    hide Contents, InOrder;
    Distance(s.base, s.taken, s.pos);
  }

  /** Core 0 goes on, unless it waits for a request. */
  lemma ProducerAdvances(s: State)
    requires Inv(s) && !s.blocked && !Stuck(s) && (s.producer != PIdle || s.dreq)
    ensures |s.fifo| == FIFO_LEN && Closer(ProducerStep(s), s)
    ensures !ProducerStep(s).blocked && !Stuck(ProducerStep(s))
  {
    hide Inv, ProducerStep, Stuck, Closer, SameCore1;
    Known(s);
    match s.producer
    case PIdle => IdleAdvances(s);
    case PLoadedP(_, _) => LookAdvances(s);
    case PCopying(_, _, _) => CopyAdvances(s);
    case PRecheck => RecheckAdvances(s);
    case _ => FlagAdvances(s);
  }

  lemma IdleAdvances(s: State)
    requires Inv(s) && !s.blocked && !Stuck(s) && s.producer == PIdle && s.dreq
    ensures |s.fifo| == FIFO_LEN
    ensures var t := ProducerStep(s); Closer(t, s) && !t.blocked && !Stuck(t)
  {
    hide Inv, Wrapped;
    Known(s);
    Decides(s);
    hide Look, CopyOn;
  }

  lemma LookAdvances(s: State)
    requires Inv(s) && !s.blocked && !Stuck(s) && s.producer.PLoadedP?
    ensures |s.fifo| == FIFO_LEN
    ensures var t := ProducerStep(s); Closer(t, s) && !t.blocked && !Stuck(t)
  {
    hide Inv, Wrapped, Allowance;
    Known(s);
    Compares(s);
    hide CopyOn;
    assert ProducerStep(s) == Look(s, s.producer.p);
  }

  lemma CopyAdvances(s: State)
    requires Inv(s) && !s.blocked && !Stuck(s) && s.producer.PCopying?
    ensures |s.fifo| == FIFO_LEN
    ensures var t := ProducerStep(s); Closer(t, s) && !t.blocked && !Stuck(t)
  {
    hide Inv, Wrapped, Masked, Look;
    Known(s);
    var PCopying(q, n, done) := s.producer;
    assert ProducerStep(s) == CopyOn(s, q, n, done);
    if done < n {
      assert CopyOn(s, q, n, done) ==
               s.(fifo := s.fifo[Masked(q + done) := s.block[s.pos + done]], producer := PCopying(q, n, done + 1));
    } else {
      assert CopyOn(s, q, n, done).pos == s.pos + n;
    }
  }

  lemma RecheckAdvances(s: State)
    requires Inv(s) && !s.blocked && !Stuck(s) && s.producer.PRecheck?
    ensures |s.fifo| == FIFO_LEN
    ensures var t := ProducerStep(s); Closer(t, s) && !t.blocked && !Stuck(t)
  {
    hide Inv, Wrapped;
    Known(s);
    Rechecks(s);
    hide Look, CopyOn;
  }

  lemma FlagAdvances(s: State)
    requires Inv(s) && !s.blocked && !Stuck(s)
    requires s.producer.PRelease? || s.producer.PFinish? || s.producer.PDrop? || s.producer.PInterrupt?
    ensures |s.fifo| == FIFO_LEN
    ensures var t := ProducerStep(s); Closer(t, s) && !t.blocked && !Stuck(t)
  {
    hide Inv, Wrapped;
    Known(s);
  }

  /** While core 0 waits, core 1 goes on. */
  lemma ConsumerAdvances(s: State)
    requires Inv(s) && !s.blocked && !Stuck(s) && s.producer == PIdle && !s.dreq
    ensures |s.fifo| == FIFO_LEN
    ensures var t := ConsumerStep(s); t.blocked || (Closer(t, s) && !Stuck(t))
  {
    hide Inv, ConsumerStep, Stuck, Closer;
    Known(s);
    match s.consumer
    case CIdle => StartAdvances(s);
    case CLoadedP(_) => StartAdvances(s);
    case CLoaded(_, _, _) => PlayAdvances(s);
    case CSample(_, _, _, _) => PlayAdvances(s);
    case CPlayed(_, _, _) => PlayAdvances(s);
    case _ => EndAdvances(s);
  }

  lemma StartAdvances(s: State)
    requires Inv(s) && !s.blocked && !Stuck(s) && s.producer == PIdle && !s.dreq && Looking(s.consumer)
    ensures |s.fifo| == FIFO_LEN
    ensures var t := ConsumerStep(s); Closer(t, s) && !Stuck(t)
  {
    hide Inv, Wrapped;
    Known(s);
    if s.consumer.CIdle? {
      assert ConsumerStep(s) == s.(consumer := CLoadedP(s.fifoP));
    } else {
      assert ConsumerStep(s) == s.(consumer := CLoaded(s.consumer.p, s.fifoQ, s.pos), stale := false);
    }
  }

  lemma PlayAdvances(s: State)
    requires Inv(s) && !s.blocked && !Stuck(s) && s.producer == PIdle && !s.dreq
    requires s.consumer.CLoaded? || s.consumer.CSample? || s.consumer.CPlayed?
    ensures |s.fifo| == FIFO_LEN
    ensures var t := ConsumerStep(s); Closer(t, s) && !Stuck(t)
  {
    hide Inv, Wrapped, Masked;
    Known(s);
  }

  lemma EndAdvances(s: State)
    requires Inv(s) && !s.blocked && !Stuck(s) && s.producer == PIdle && !s.dreq
    requires s.consumer.CStored? || s.consumer.CWake? || s.consumer.CHold? || s.consumer.CFinish?
    ensures |s.fifo| == FIFO_LEN
    ensures var t := ConsumerStep(s); t.blocked || (Closer(t, s) && !Stuck(t))
  {
    hide Inv, Wrapped;
    Known(s);
  }

  /** From every state that is not stuck, some interleaving brings core 1 to the end of the block. */
  lemma {:induction false} CanFinish(s: State) returns (moves: seq<Move>)
    requires Inv(s) && !Stuck(s)
    ensures |s.fifo| == FIFO_LEN && Run(s, moves).blocked
    decreases |s.block| - s.pos, |s.block| - s.taken, ConsumerRank(s.consumer), s.dreq, ProducerRank(s.producer)
  {
    hide Inv, Stuck, ProducerStep, ConsumerStep;
    Known(s);
    if s.blocked { return []; }
    if s.producer != PIdle || s.dreq {
      ProducerAdvances(s);
      ProducerKeeps(s);
      Known(ProducerStep(s));
      var rest := CanFinish(ProducerStep(s));
      moves := [Core0] + rest;
    } else {
      ConsumerAdvances(s);
      ConsumerKeeps(s);
      Known(ConsumerStep(s));
      if ConsumerStep(s).blocked {
        assert Run(s, [Core1]) == Run(ConsumerStep(s), []);
        return [Core1];
      }
      var rest := CanFinish(ConsumerStep(s));
      moves := [Core1] + rest;
    }
  }

  /** ---- A stuck state is never left ---- */

  /** Nothing more is published, played or reported. */
  predicate Frozen(s: State, t: State) {
    && t.block == s.block && t.pos == s.pos && t.played == s.played && !t.blocked && !t.consumerDone
    && (Stalled(s) ==> t.irq == s.irq && !t.producerDone)
  }

  lemma ProducerStuck(s: State)
    requires Inv(s) && Stuck(s)
    ensures |s.fifo| == FIFO_LEN && Stuck(ProducerStep(s)) && Frozen(s, ProducerStep(s))
  {
    hide Inv, Wrapped, Allowance, SameCore1;
    Known(s);
    ProducerFrame(s);
    hide ProducerStep;
    match s.producer
    case PIdle => IdleStuck(s);
    case PLoadedP(_, _) => LookStuck(s);
    case PCopying(_, _, _) => assert false;
    case PRecheck => RecheckStuck(s);
    case _ => FlagStuck(s);
  }

  lemma IdleStuck(s: State)
    requires Inv(s) && Stuck(s) && s.producer == PIdle
    ensures |s.fifo| == FIFO_LEN && Stuck(ProducerStep(s)) && Frozen(s, ProducerStep(s))
  {
    hide Inv, Wrapped, Allowance, Look, CopyOn;
    Known(s);
    Decides(s);
  }

  lemma LookStuck(s: State)
    requires Inv(s) && Stuck(s) && s.producer.PLoadedP?
    ensures |s.fifo| == FIFO_LEN && Stuck(ProducerStep(s)) && Frozen(s, ProducerStep(s))
  {
    hide Inv, Wrapped, Allowance, CopyOn;
    Known(s);
    Compares(s);
    assert ProducerStep(s) == Look(s, s.producer.p);
  }

  lemma RecheckStuck(s: State)
    requires Inv(s) && Stuck(s) && s.producer.PRecheck?
    ensures |s.fifo| == FIFO_LEN && Stuck(ProducerStep(s)) && Frozen(s, ProducerStep(s))
  {
    hide Inv, Wrapped, Look, CopyOn;
    Known(s);
    Rechecks(s);
  }

  lemma FlagStuck(s: State)
    requires Inv(s) && Stuck(s)
    requires s.producer.PRelease? || s.producer.PFinish? || s.producer.PDrop? || s.producer.PInterrupt?
    ensures |s.fifo| == FIFO_LEN && Stuck(ProducerStep(s)) && Frozen(s, ProducerStep(s))
  {
    hide Inv, Wrapped, Allowance;
    Known(s);
  }

  lemma ConsumerStuck(s: State)
    requires Inv(s) && Stuck(s)
    ensures |s.fifo| == FIFO_LEN && Stuck(ConsumerStep(s)) && Frozen(s, ConsumerStep(s))
  {
    hide Inv, Wrapped, Masked, Allowance;
    Known(s);
    assert ConsumerStep(s) == match s.consumer
      case CIdle => s.(consumer := CLoadedP(s.fifoP))
      case CWake => s.(consumer := if s.producerDone then CIdle else CHold)
      case CHold => s.(dreq := true, consumer := CIdle)
      case _ => s.(consumer := CIdle);
  }

  lemma {:induction false} StuckStays(s: State, moves: seq<Move>)
    requires Inv(s) && Stuck(s)
    ensures |s.fifo| == FIFO_LEN && Stuck(Run(s, moves)) && Frozen(s, Run(s, moves))
    decreases |moves|
  {
    hide Inv, ProducerStep, ConsumerStep, ServiceStep, Drained, Stalled;
    Known(s);
    FrozenItself(s);
    if moves != [] {
      var t := Step(s, moves[0]);
      StuckStep(s, moves[0]);
      StepKeeps(s, moves[0]);
      StuckStays(t, moves[1..]);
    }
  }

  lemma FrozenItself(s: State)
    requires Inv(s) && Stuck(s)
    ensures Frozen(s, s)
  {
    hide Inv;
    Known(s);
  }

  lemma StuckStep(s: State, m: Move)
    requires Inv(s) && Stuck(s)
    ensures |s.fifo| == FIFO_LEN && Stuck(Step(s, m)) && Frozen(s, Step(s, m)) && (Stalled(s) ==> Stalled(Step(s, m)))
  {
    hide Inv, ProducerStep, ConsumerStep;
    Known(s);
    match m
    case Core0 => ProducerStuck(s);
    case Core1 => ConsumerStuck(s);
    case Service =>
  }

  /** Completion can still be reported if and only if the state is not one of the two kinds. */
  lemma FinishesIff(s: State)
    requires Inv(s)
    ensures |s.fifo| == FIFO_LEN
    ensures (exists moves :: Run(s, moves).blocked) <==> !Stuck(s)
  {
    hide Inv, Run, Stuck;
    Sized(s);
    if Stuck(s) {
      forall moves ensures !Run(s, moves).blocked { StuckStays(s, moves); }
    } else {
      var moves := CanFinish(s);
    }
  }

  /** For every run of a block. */
  lemma RunFinishesIff(block: seq<byte>, irqEnabled: bool, fifo: seq<byte>, base: nat, moves: seq<Move>)
    requires |block| > 0 && |fifo| == FIFO_LEN && base < WRAP
    ensures var s := Run(Start(block, irqEnabled, fifo, base), moves);
            (exists more :: Run(s, more).blocked) <==> !Stuck(s)
  {
    hide Run;
    StartInv(block, irqEnabled, fifo, base);
    RunKeeps(Start(block, irqEnabled, fifo, base), moves);
    FinishesIff(Run(Start(block, irqEnabled, fifo, base), moves));
  }

  /** ---- How the two come about ---- */

  /** Core 1 finds the done flag not set and raises the request. */
  lemma Wakes(s: State, before: seq<Move>, u: State) returns (moves: seq<Move>, t: State)
    requires |s.fifo| == FIFO_LEN && u == Run(s, before) && u.consumer.CStored? && !u.producerDone
    ensures t == Run(s, moves) && t == u.(consumer := CIdle, dreq := true)
  {
    hide Run, ProducerStep, ServiceStep;
    moves, t := More(s, before, Core1);
    assert t == u.(consumer := CWake);
    moves, t := More(s, moves, Core1);
    assert t == u.(consumer := CHold);
    moves, t := More(s, moves, Core1);
  }

  /** Core 0 compares with the index it read before, and lowers the request. */
  lemma Lowers(s: State, before: seq<Move>, u: State) returns (moves: seq<Move>, t: State)
    requires |s.fifo| == FIFO_LEN && u == Run(s, before)
    requires u.producer == PLoadedP(0, 0) && u.fifoQ == u.pos == 1 && |u.block| == 2
    ensures t == Run(s, moves) && t == u.(producer := PIdle, dreq := false)
  {
    hide Run, ConsumerStep, ServiceStep;
    moves, t := More(s, before, Core0);
    assert t == u.(producer := PRelease);
    moves, t := More(s, moves, Core0);
  }

  /**
   A request lost: before the last byte core 0 has read that a byte is still queued, core 1
   plays it and raises the request, and then core 0 lowers it.  The last byte is never
   fetched and the interrupt never comes.
   */
  lemma StallExample(a: byte, b: byte) returns (moves: seq<Move>)
    ensures var t := Run(Start([a, b], true, seq(FIFO_LEN, _ => 0), 0), moves);
            Stalled(t) && t.producer == PIdle && !t.dreq && t.pos == |t.played| == 1 && !t.irq
  {
    hide Run, ConsumerStep, ServiceStep;
    var s := Start([a, b], true, seq(FIFO_LEN, _ => 0), 0);
    var t;
    moves, t := FirstIn(s);
    ghost var u := t;
    moves, t := More(s, moves, Core0);
    assert t == u.(producer := PLoadedP(0, 0));
    moves, t := PlayOne(s, moves, t, 0);
    moves, t := Wakes(s, moves, t);
    moves, t := Lowers(s, moves, t);
  }

  /**
   A completion lost: core 1 plays the last byte and looks at the done flag before core 0
   has set it.  The interrupt comes, but the channel is never retired.
   */
  lemma UnreportedExample(a: byte, b: byte) returns (moves: seq<Move>)
    ensures var t := Run(Start([a, b], true, seq(FIFO_LEN, _ => 0), 0), moves);
            Drained(t) && t.producer == PIdle && t.consumer == CIdle && t.irq && t.running && |t.played| == 2
  {
    hide Run, Step;
    var s := Start([a, b], true, seq(FIFO_LEN, _ => 0), 0);
    var t;
    moves, t := FirstIn(s);
    moves, t := PlayOne(s, moves, t, 0);
    moves, t := Wakes(s, moves, t);
    moves, t := SecondIn(s, moves, t);
    moves, t := PlayOne(s, moves, t, 1);
    moves, t := Wakes(s, moves, t);
    moves, t := DoneSet(s, moves, t);
  }
}
