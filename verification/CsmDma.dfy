/**
 The two-core audio FIFO of the CSM card: core 0 moves DMA bytes in, core 1 plays
 them, and they share two 32-bit indices, two flags and the DMA request line.  Every shared access is
 one step, and the steps of the two cores interleave in any way.
 */
module CsmDma {
  import opened GuestMemory
  import opened Arith

  const WRAP: nat := 0x1_0000_0000
  const FIFO_LEN: nat := 256

  /** Where core 0 is inside csm_dma_transfer.  `taken` and `put` are history, not registers. */
  datatype Producer =
    | PIdle
    | PLoadedP(p: nat, taken: nat)
    | PCopying(q: nat, copied: nat, done: nat)
    | PRecheck                  // published, about to look whether the FIFO is full
    | PRelease                  // about to lower the request
    | PFinish
    | PDrop                     // terminal count is up, about to lower the request
    | PInterrupt

  /** Where core 1 is inside one turn of the loop in csm_getsample. */
  datatype Consumer =
    | CIdle
    | CLoadedP(p: nat)
    | CLoaded(p: nat, q: nat, put: nat)
    | CSample(p: nat, q: nat, put: nat, sample: byte)
    | CPlayed(p: nat, q: nat, put: nat)
    | CStored(p: nat, q: nat, put: nat)
    | CWake                     // about to look at the done flag once more
    | CHold                     // about to raise the request
    | CFinish

  datatype State = State(
    block: seq<byte>,           // what the DMA channel delivers
    irqEnabled: bool,
    running: bool,
    fifo: seq<byte>,
    fifoP: nat,
    fifoQ: nat,
    producerDone: bool,
    consumerDone: bool,
    blocked: bool,              // audio_blocked
    irq: bool,
    dreq: bool,                 // the DMA request line: core 0 moves bytes only while it is up
    pos: nat,                   // the position the DMA controller keeps
    producer: Producer,
    consumer: Consumer,
    base: nat,                  // history: where the indices started,
    taken: nat,                 // how many bytes core 1 has taken,
    played: seq<byte>,          // the samples it has played,
    stale: bool)                // and whether core 0 has published since core 1 last read its index

  function Start(block: seq<byte>, irqEnabled: bool, fifo: seq<byte>, base: nat): (s: State) {
    State(block, irqEnabled, true, fifo, base, base,
          false, false, false, false, true, 0, PIdle, CIdle, base, 0, [], false)
  }

  /** How many bytes a transfer may move: never the last one while anything is queued. */
  function Allowance(used: int, remain: int): (count: int) {
    if used >= FIFO_LEN - 1 || (remain == 1 && used != 0) then 0
    else if remain == 1 then 1
    else if remain - 1 > FIFO_LEN - 1 - used then FIFO_LEN - 1 - used
    else remain - 1
  }

  /** It fills the FIFO to 255 bytes, but holds the last byte of the block back until the FIFO is empty. */
  lemma AllowanceMeans(used: nat, remain: nat)
    requires used < FIFO_LEN && remain > 0
    ensures var c := Allowance(used, remain);
            && 0 <= c <= remain && used + c <= 255 && (c == remain ==> remain == 1 && used == 0)
            && (used + c == 255 || c == remain - 1 || c == remain)
            && (remain == 1 && used == 0 ==> c == 1)
  {
  }

  /** 32-bit arithmetic. */
  function Wrapped(x: int): (w: nat)
    ensures w < WRAP
  {
    x % WRAP
  }

  /** The FIFO slot of a 32-bit index. */
  function Masked(index: nat): (k: nat)
    ensures k < FIFO_LEN
  {
    index % WRAP % FIFO_LEN
  }

  /** The indices compared; the DMA controller then delivers all that is asked of it. */
  function Look(s: State, p: nat): (t: State)
    ensures t.fifo == s.fifo
  {
    var count := Allowance(Wrapped(s.fifoQ - p), |s.block| - s.pos);
    if count <= 0 then s.(producer := PRelease) else s.(producer := PCopying(s.fifoQ, count, 0))
  }

  /** Core 1 works on an index of core 0 that it has read and not yet compared with its own. */
  predicate HoldsIndex(c: Consumer) {
    c.CLoaded? || c.CSample? || c.CPlayed? || c.CStored?
  }

  /** One byte copied, or all of them published. */
  function CopyOn(s: State, q: nat, n: nat, done: nat): (t: State)
    requires |s.fifo| == FIFO_LEN
    ensures |t.fifo| == FIFO_LEN
  {
    if done < n && s.pos + done < |s.block| then
      s.(fifo := s.fifo[Masked(q + done) := s.block[s.pos + done]], producer := PCopying(q, n, done + 1))
    else
      s.(fifoQ := Wrapped(q + n), pos := s.pos + n, producer := if s.pos + n >= |s.block| then PFinish else PRecheck,
         stale := s.stale || HoldsIndex(s.consumer))
  }

  /** One step of core 0. */
  function ProducerStep(s: State): (t: State)
    requires |s.fifo| == FIFO_LEN
    ensures |t.fifo| == FIFO_LEN
  {
    match s.producer
    case PIdle =>
      if !s.dreq then s
      else if !s.running || s.producerDone || |s.block| == 0 then s.(producer := PRelease)
      else if s.pos >= |s.block| then s.(producer := PFinish)
      else s.(producer := PLoadedP(s.fifoP, s.taken))
    case PLoadedP(p, _) => Look(s, p)
    case PCopying(q, n, done) => CopyOn(s, q, n, done)
    case PRecheck => s.(producer := if Wrapped(s.fifoQ - s.fifoP) >= FIFO_LEN - 1 then PRelease else PIdle)
    case PRelease => s.(dreq := false, producer := PIdle)
    case PFinish => s.(producerDone := true, producer := PDrop)
    case PDrop => s.(dreq := false, producer := PInterrupt)
    case PInterrupt => s.(irq := s.irq || s.irqEnabled, producer := PIdle)
  }

  /** csm_service, which runs on core 0 between transfers. */
  function ServiceStep(s: State): (t: State)
    ensures t.fifo == s.fifo
  {
    if s.producer != PIdle || !s.consumerDone then s
    else s.(consumerDone := false, running := s.running && !s.producerDone)
  }

  /** One step of core 1. */
  function ConsumerStep(s: State): (t: State)
    requires |s.fifo| == FIFO_LEN
    ensures |t.fifo| == FIFO_LEN
  {
    match s.consumer
    case CIdle => if s.running && !s.blocked then s.(consumer := CLoadedP(s.fifoP)) else s
    case CLoadedP(p) =>
      if p == s.fifoQ then s.(consumer := CIdle)
      else s.(consumer := CLoaded(p, s.fifoQ, s.pos), stale := false)
    case CLoaded(p, q, put) => s.(consumer := CSample(p, q, put, s.fifo[Masked(p)]))
    case CSample(p, q, put, sample) => s.(played := s.played + [sample], consumer := CPlayed(p, q, put))
    case CPlayed(p, q, put) =>
      s.(fifoP := Wrapped(p + 1), taken := s.taken + 1, consumer := CStored(Wrapped(p + 1), q, put))
    case CStored(p, q, put) =>
      if s.producerDone && p == q then s.(blocked := true, consumer := CFinish)
      else s.(consumer := CWake)
    case CWake => s.(consumer := if s.producerDone then CIdle else CHold)
    case CHold => s.(dreq := true, consumer := CIdle)
    case CFinish => s.(consumerDone := true, consumer := CIdle)
  }

  /** ---- The invariant ---- */

  predicate Counters(s: State) {
    && |s.fifo| == FIFO_LEN && |s.block| > 0 && s.base < WRAP
    && s.taken <= s.pos <= |s.block| && s.pos - s.taken <= FIFO_LEN - 1
    && s.fifoP == (s.base + s.taken) % WRAP && s.fifoQ == (s.base + s.pos) % WRAP
  }

  function SlotOf(s: State, i: nat): (k: nat) { (s.base + i) % FIFO_LEN }

  /** What is in the FIFO, and what core 0 is about to publish, is the block in order. */
  ghost predicate Contents(s: State)
    requires Counters(s)
  {
    forall i :: s.taken <= i < s.pos + Pending(s) && i < |s.block| ==> s.fifo[SlotOf(s, i)] == s.block[i]
  }

  function Pending(s: State): (n: nat) { if s.producer.PCopying? then s.producer.done else 0 }

  /** The last byte is published only when every earlier one has been taken. */
  predicate LastAlone(s: State)
    requires Counters(s)
  {
    && (s.pos == |s.block| ==> s.taken >= |s.block| - 1)
    && (s.pos == |s.block| <==> s.producerDone || s.producer == PFinish)
    && (s.irq ==> s.producerDone)
    && (s.producer == PDrop || s.producer == PInterrupt ==> s.producerDone)
  }

  /** Once a transfer has started, only core 0 lowers the request. */
  predicate Requested(s: State) { s.producer == PIdle || s.producer == PInterrupt || s.dreq }

  predicate ProducerOk(s: State)
    requires Counters(s)
  {
    match s.producer
    case PLoadedP(p, taken) =>
      taken <= s.taken && s.pos - taken <= FIFO_LEN - 1 && p == (s.base + taken) % WRAP && s.pos < |s.block|
    case PCopying(q, copied, done) =>
      && q == s.fifoQ && done <= copied && 0 < copied && s.pos + copied <= |s.block|
      && s.pos - s.taken + copied <= FIFO_LEN - 1
      && (s.pos + copied == |s.block| ==> s.taken == s.pos && copied == 1)
    case _ => true
  }

  predicate Snapshot(s: State, q: nat, put: nat)
    requires Counters(s)
  {
    s.taken <= put <= s.pos && q == (s.base + put) % WRAP && (s.stale <==> put < s.pos)
  }

  predicate ConsumerOk(s: State)
    requires Counters(s)
  {
    match s.consumer
    case CIdle => true
    case CWake => s.taken > 0
    case CHold => s.taken > 0
    case CLoadedP(p) => p == s.fifoP
    case CLoaded(p, q, put) => p == s.fifoP && Snapshot(s, q, put) && s.taken < put
    case CSample(p, q, put, sample) =>
      p == s.fifoP && Snapshot(s, q, put) && s.taken < put && sample == s.block[s.taken]
    case CPlayed(p, q, put) => p == s.fifoP && Snapshot(s, q, put) && s.taken < put
    case CStored(p, q, put) => p == s.fifoP && Snapshot(s, q, put) && s.taken > 0
    case CFinish => s.blocked
  }

  /** Samples leave in DMA order, none lost or repeated. */
  predicate InOrder(s: State)
    requires Counters(s)
  {
    var n := if s.consumer.CPlayed? then s.taken + 1 else s.taken;
    n <= |s.block| && s.played == s.block[..n]
  }

  /**
   When core 1 has finished, all but perhaps the last byte are consumed; all of them
   unless core 0 published during its last turn.
   */
  predicate Finished(s: State)
    requires Counters(s)
  {
    && (s.consumerDone ==> s.blocked)
    && (s.blocked ==> s.producerDone && (s.consumer == CIdle || s.consumer == CFinish))
    && (s.blocked ==> if s.stale then s.taken == |s.block| - 1 else s.taken == |s.block|)
    && (!s.running ==> s.producerDone && s.blocked)
  }

  ghost predicate Inv(s: State) {
    Counters(s) && Contents(s) && LastAlone(s) && ProducerOk(s) && ConsumerOk(s) && InOrder(s) && Finished(s)
    && Requested(s)
  }

  lemma StartInv(block: seq<byte>, irqEnabled: bool, fifo: seq<byte>, base: nat)
    requires |block| > 0 && |fifo| == FIFO_LEN && base < WRAP
    ensures Inv(Start(block, irqEnabled, fifo, base))
  {
  }

  /** ---- Index arithmetic ---- */

  /** Wrapped indices that are close together differ by what they count. */
  lemma Distance(base: nat, a: nat, b: nat)
    requires a <= b < a + WRAP
    ensures ((base + b) % WRAP - (base + a) % WRAP) % WRAP == b - a
    ensures (base + a) % WRAP == (base + b) % WRAP <==> a == b
  {
    var k := (base + a) / WRAP;
    var r := (base + a) % WRAP;
    var d := r + (b - a);
    if d < WRAP {
      DivModUnique(base + b, WRAP, k, d);
      DivModUnique(b - a, WRAP, 0, b - a);
    } else {
      DivModUnique(base + b, WRAP, k + 1, d - WRAP);
      DivModUnique(b - a - WRAP, WRAP, -1, b - a);
    }
  }

  lemma WrapThenSlot(x: nat)
    ensures x % WRAP % FIFO_LEN == x % FIFO_LEN
  {
    var q, r := x / WRAP, x % WRAP;
    DivModUnique(x, FIFO_LEN, q * (WRAP / FIFO_LEN) + r / FIFO_LEN, r % FIFO_LEN);
  }

  lemma WrapAdd(x: nat, n: nat)
    ensures (x % WRAP + n) % WRAP == (x + n) % WRAP
  {
    var q, r := x / WRAP, x % WRAP;
    DivModUnique(x + n, WRAP, q + (r + n) / WRAP, (r + n) % WRAP);
  }

  lemma SlotsDiffer(base: nat, i: nat, j: nat)
    requires i < j < i + FIFO_LEN
    ensures (base + i) % FIFO_LEN != (base + j) % FIFO_LEN
  {
    var k, r := (base + i) / FIFO_LEN, (base + i) % FIFO_LEN;
    var d := r + (j - i);
    if d < FIFO_LEN {
      DivModUnique(base + j, FIFO_LEN, k, d);
    } else {
      DivModUnique(base + j, FIFO_LEN, k + 1, d - FIFO_LEN);
    }
  }

  /** ---- Every step keeps the invariant ---- */

  /** Core 0 changes nothing of core 1. */
  predicate SameCore1(s: State, t: State) {
    t == s.(fifo := t.fifo, fifoQ := t.fifoQ, producerDone := t.producerDone, irq := t.irq, dreq := t.dreq,
            pos := t.pos, producer := t.producer, stale := t.stale)
  }

  lemma ProducerFrame(s: State)
    requires |s.fifo| == FIFO_LEN
    ensures SameCore1(s, ProducerStep(s))
  {
    hide ProducerStep, SameCore1;
    match s.producer
    case PCopying(_, _, _) => CopyFrame(s);
    case PRelease => FlagFrame(s);
    case PFinish => FlagFrame(s);
    case PDrop => FlagFrame(s);
    case PInterrupt => FlagFrame(s);
    case _ =>
      OnlyLooks(s);
      OnlyProducer(s, ProducerStep(s));
  }

  /** Deciding what to do and comparing the indices change nothing that is shared. */
  lemma OnlyLooks(s: State)
    requires |s.fifo| == FIFO_LEN && (s.producer.PIdle? || s.producer.PLoadedP? || s.producer.PRecheck?)
    ensures ProducerStep(s) == s.(producer := ProducerStep(s).producer)
  {
    hide ProducerStep;
    match s.producer
    case PIdle => Decides(s);
    case PRecheck => Rechecks(s);
    case _ => Compares(s);
  }

  lemma Decides(s: State)
    requires |s.fifo| == FIFO_LEN && s.producer.PIdle?
    ensures ProducerStep(s) == s.(producer := ProducerStep(s).producer)
  {
    hide Wrapped, Look, CopyOn;
  }

  lemma Rechecks(s: State)
    requires |s.fifo| == FIFO_LEN && s.producer.PRecheck?
    ensures ProducerStep(s) == s.(producer := ProducerStep(s).producer)
  {
    hide Wrapped, Look, CopyOn;
  }

  lemma Compares(s: State)
    requires |s.fifo| == FIFO_LEN && s.producer.PLoadedP?
    ensures ProducerStep(s) == s.(producer := ProducerStep(s).producer)
  {
    hide Wrapped, Allowance, CopyOn;
    assert ProducerStep(s) == Look(s, s.producer.p);
  }

  lemma OnlyProducer(s: State, t: State)
    requires t == s.(producer := t.producer)
    ensures SameCore1(s, t)
  {
  }

  lemma CopyFrame(s: State)
    requires |s.fifo| == FIFO_LEN && s.producer.PCopying?
    ensures SameCore1(s, ProducerStep(s))
  {
    hide Wrapped, Masked, Look, CopyOn, SameCore1;
    var PCopying(q, n, done) := s.producer;
    assert ProducerStep(s) == CopyOn(s, q, n, done);
    if done < n && s.pos + done < |s.block| { ByteFrame(s, q, n, done); } else { PublishFrame(s, q, n, done); }
  }

  lemma ByteFrame(s: State, q: nat, n: nat, done: nat)
    requires |s.fifo| == FIFO_LEN && done < n && s.pos + done < |s.block|
    ensures SameCore1(s, CopyOn(s, q, n, done))
  {
    hide Wrapped, Masked;
    assert CopyOn(s, q, n, done) ==
             s.(fifo := s.fifo[Masked(q + done) := s.block[s.pos + done]], producer := PCopying(q, n, done + 1));
  }

  lemma PublishFrame(s: State, q: nat, n: nat, done: nat)
    requires |s.fifo| == FIFO_LEN && !(done < n && s.pos + done < |s.block|)
    ensures SameCore1(s, CopyOn(s, q, n, done))
  {
    hide Wrapped, Masked;
  }

  lemma FlagFrame(s: State)
    requires |s.fifo| == FIFO_LEN
    requires s.producer.PRelease? || s.producer.PFinish? || s.producer.PDrop? || s.producer.PInterrupt?
    ensures SameCore1(s, ProducerStep(s))
  {
  }

  lemma LoadPKeeps(s: State)
    requires Inv(s) && s.producer.PLoadedP?
    ensures Inv(ProducerStep(s))
  {
    hide Contents, InOrder, Finished, ConsumerOk;
    var t := ProducerStep(s);
    Distance(s.base, s.producer.taken, s.pos);
    SameView(s, t);
  }

  /** A step that only moves core 0, with nothing half copied, leaves everything about core 1. */
  lemma SameView(s: State, t: State)
    requires Counters(s) && Contents(s) && InOrder(s) && Finished(s) && ConsumerOk(s)
    requires t == s.(producer := t.producer, dreq := t.dreq) && Pending(t) <= Pending(s)
    ensures Counters(t) && Contents(t) && InOrder(t) && Finished(t) && ConsumerOk(t)
  {
    assert forall i :: SlotOf(t, i) == SlotOf(s, i);
  }

  lemma CopyKeeps(s: State)
    requires Inv(s) && s.producer.PCopying? && s.producer.done < s.producer.copied
    ensures Inv(ProducerStep(s))
  {
    hide InOrder, Finished, ConsumerOk;
    var t := ProducerStep(s);
    var n := s.pos + s.producer.done;
    WrapAdd(s.base + s.pos, s.producer.done);
    WrapThenSlot(s.base + n);
    forall i | t.taken <= i < t.pos + Pending(t) && i < |t.block| ensures t.fifo[SlotOf(t, i)] == t.block[i] {
      if i < n { SlotsDiffer(s.base, i, n); assert s.fifo[SlotOf(s, i)] == s.block[i]; }
    }
    CopyRest(s, t);
  }

  lemma CopyRest(s: State, t: State)
    requires Counters(s) && InOrder(s) && Finished(s) && ConsumerOk(s)
    requires t == s.(producer := t.producer, fifo := t.fifo) && |t.fifo| == FIFO_LEN
    ensures Counters(t) && InOrder(t) && Finished(t) && ConsumerOk(t)
  {
  }

  lemma PublishKeeps(s: State)
    requires Inv(s) && s.producer.PCopying? && s.producer.done == s.producer.copied
    ensures Inv(ProducerStep(s))
  {
    var t := ProducerStep(s);
    WrapAdd(s.base + s.pos, s.producer.copied);
    assert forall i :: SlotOf(t, i) == SlotOf(s, i);
    assert t.pos == s.pos + Pending(s) && Pending(t) == 0;
  }

  lemma ProducerKeeps(s: State)
    requires Inv(s)
    ensures Inv(ProducerStep(s))
  {
    match s.producer
    case PIdle => IdleKeeps(s);
    case PLoadedP(_, _) => LoadPKeeps(s);
    case PCopying(q, n, done) => if done < n { CopyKeeps(s); } else { PublishKeeps(s); }
    case PFinish => FinishKeeps(s);
    case PInterrupt => FinishKeeps(s);
    case PRecheck => ReleaseKeeps(s);
    case PRelease => ReleaseKeeps(s);
    case PDrop => ReleaseKeeps(s);
  }

  lemma IdleKeeps(s: State)
    requires Inv(s) && s.producer.PIdle?
    ensures Inv(ProducerStep(s))
  {
    hide Contents, InOrder, Finished, ConsumerOk;
    SameView(s, ProducerStep(s));
  }

  lemma FinishKeeps(s: State)
    requires Inv(s) && (s.producer.PFinish? || s.producer.PInterrupt?)
    ensures Inv(ProducerStep(s))
  {
    var t := ProducerStep(s);
    assert forall i :: SlotOf(t, i) == SlotOf(s, i);
  }

  lemma ReleaseKeeps(s: State)
    requires Inv(s) && (s.producer.PRecheck? || s.producer.PRelease? || s.producer.PDrop?)
    ensures Inv(ProducerStep(s))
  {
    hide Contents, InOrder, Finished, ConsumerOk;
    SameView(s, ProducerStep(s));
  }

  lemma ServiceKeeps(s: State)
    requires Inv(s)
    ensures Inv(ServiceStep(s))
  {
    var t := ServiceStep(s);
    assert forall i :: SlotOf(t, i) == SlotOf(s, i);
  }

  /** A step that only moves core 1 leaves everything about core 0. */
  lemma SameProducer(s: State, t: State)
    requires Counters(s) && Contents(s) && LastAlone(s) && ProducerOk(s)
    requires t == s.(consumer := t.consumer, blocked := t.blocked, stale := t.stale, consumerDone := t.consumerDone,
                     dreq := t.dreq)
    ensures Counters(t) && Contents(t) && LastAlone(t) && ProducerOk(t)
  {
    assert forall i :: SlotOf(t, i) == SlotOf(s, i);
  }

  lemma WaitKeeps(s: State)
    requires Inv(s) && (s.consumer.CIdle? || s.consumer.CWake? || s.consumer.CHold? || s.consumer.CFinish?)
    ensures Inv(ConsumerStep(s))
  {
    hide Contents, LastAlone, ProducerOk;
    SameProducer(s, ConsumerStep(s));
  }

  lemma LookKeeps(s: State)
    requires Inv(s) && s.consumer.CLoadedP?
    ensures Inv(ConsumerStep(s))
  {
    hide Contents, LastAlone, ProducerOk;
    SameProducer(s, ConsumerStep(s));
    Distance(s.base, s.taken, s.pos);
  }

  lemma SampleKeeps(s: State)
    requires Inv(s) && s.consumer.CLoaded?
    ensures Inv(ConsumerStep(s))
  {
    hide Finished, InOrder, LastAlone, ProducerOk, Wrapped;
    var t := ConsumerStep(s);
    WrapThenSlot(s.base + s.taken);
    assert s.fifo[SlotOf(s, s.taken)] == s.block[s.taken];
    SampleRest(s, t);
  }

  /** A step that only reads leaves everything else. */
  lemma SampleRest(s: State, t: State)
    requires Counters(s) && Contents(s) && LastAlone(s) && ProducerOk(s) && InOrder(s) && Finished(s)
    requires s.consumer.CLoaded? && t.consumer.CSample? && t == s.(consumer := t.consumer)
    ensures Counters(t) && Contents(t) && LastAlone(t) && ProducerOk(t) && InOrder(t) && Finished(t)
  {
    assert forall i :: SlotOf(t, i) == SlotOf(s, i);
  }

  lemma PlayKeeps(s: State)
    requires Inv(s) && s.consumer.CSample?
    ensures Inv(ConsumerStep(s))
  {
    var t := ConsumerStep(s);
    assert forall i :: SlotOf(t, i) == SlotOf(s, i);
    assert s.block[..s.taken + 1] == s.block[..s.taken] + [s.block[s.taken]];
  }

  lemma TakeKeeps(s: State)
    requires Inv(s) && s.consumer.CPlayed?
    ensures Inv(ConsumerStep(s))
  {
    var t := ConsumerStep(s);
    assert forall i :: SlotOf(t, i) == SlotOf(s, i);
    WrapAdd(s.base + s.taken, 1);
  }

  lemma CheckKeeps(s: State)
    requires Inv(s) && s.consumer.CStored?
    ensures Inv(ConsumerStep(s))
  {
    hide Contents, ProducerOk;
    SameProducer(s, ConsumerStep(s));
    Distance(s.base, s.taken, s.consumer.put);
    Distance(s.base, s.consumer.put, s.pos);
  }

  lemma ConsumerKeeps(s: State)
    requires Inv(s)
    ensures Inv(ConsumerStep(s))
  {
    hide Inv, ConsumerStep;
    match s.consumer
    case CIdle => WaitKeeps(s);
    case CLoadedP(_) => LookKeeps(s);
    case CLoaded(_, _, _) => SampleKeeps(s);
    case CSample(_, _, _, _) => PlayKeeps(s);
    case CPlayed(_, _, _) => TakeKeeps(s);
    case CStored(_, _, _) => CheckKeeps(s);
    case CWake => WaitKeeps(s);
    case CHold => WaitKeeps(s);
    case CFinish => WaitKeeps(s);
  }

  /** ---- Runs ---- */

  datatype Move = Core0 | Service | Core1

  function Step(s: State, m: Move): (t: State)
    requires |s.fifo| == FIFO_LEN
    ensures |t.fifo| == FIFO_LEN
  {
    match m
    case Core0 => ProducerStep(s)
    case Service => ServiceStep(s)
    case Core1 => ConsumerStep(s)
  }

  function Run(s: State, moves: seq<Move>): (t: State)
    requires |s.fifo| == FIFO_LEN
    ensures |t.fifo| == FIFO_LEN
    decreases |moves|
  {
    if moves == [] then s else Run(Step(s, moves[0]), moves[1..])
  }

  lemma StepKeeps(s: State, m: Move)
    requires Inv(s)
    ensures |s.fifo| == FIFO_LEN && Inv(Step(s, m))
  {
    hide ProducerStep, ServiceStep, ConsumerStep, Contents, LastAlone, ProducerOk, ConsumerOk, InOrder, Finished;
    ProducerKeeps(s);
    ServiceKeeps(s);
    ConsumerKeeps(s);
  }

  /** Every interleaving keeps the invariant. */
  lemma {:induction false} RunKeeps(s: State, moves: seq<Move>)
    requires Inv(s)
    ensures |s.fifo| == FIFO_LEN && Inv(Run(s, moves))
    decreases |moves|
  {
    hide Counters, Contents, LastAlone, ProducerOk, ConsumerOk, InOrder, Finished, Step;
    Sized(s);
    if moves != [] {
      StepKeeps(s, moves[0]);
      RunKeeps(Step(s, moves[0]), moves[1..]);
    }
  }

  lemma Sized(s: State)
    requires Inv(s)
    ensures |s.fifo| == FIFO_LEN
  {
  }

  /**
   Every interleaving: bounded occupancy, DMA order, and completion only at the very end,
   with all bytes played if and only if core 0 did not publish during core 1's last turn.
   */
  lemma Safety(block: seq<byte>, irqEnabled: bool, fifo: seq<byte>, base: nat, moves: seq<Move>)
    requires |block| > 0 && |fifo| == FIFO_LEN && base < WRAP
    ensures var s := Run(Start(block, irqEnabled, fifo, base), moves);
            && (s.fifoQ - s.fifoP) % WRAP <= 255
            && |s.played| <= |s.block| && s.played == s.block[..|s.played|]
            && (s.irq ==> s.producerDone)
            && (s.producerDone ==> s.taken >= |s.block| - 1)
            && (s.consumerDone ==> s.producerDone && (s.played == s.block <==> !s.stale) && |s.played| >= |s.block| - 1)
  {
    hide Run, Contents, ProducerOk, ConsumerOk;
    StartInv(block, irqEnabled, fifo, base);
    RunKeeps(Start(block, irqEnabled, fifo, base), moves);
    var s := Run(Start(block, irqEnabled, fifo, base), moves);
    Distance(s.base, s.taken, s.pos);
    if s.consumerDone && !s.stale { assert s.block[..|s.block|] == s.block; }
  }

  /** Core 0 has published since core 1 read its index exactly when the index it holds is no longer core 0's. */
  lemma StaleMeans(s: State)
    requires Inv(s) && HoldsIndex(s.consumer)
    ensures s.stale <==> s.consumer.put < s.pos
    ensures s.stale <==> s.consumer.q != s.fifoQ
  {
    hide Contents, InOrder, Finished, LastAlone, ProducerOk;
    Distance(s.base, s.consumer.put, s.pos);
  }

  lemma {:induction false} RunSnoc(s: State, moves: seq<Move>, m: Move)
    requires |s.fifo| == FIFO_LEN
    ensures Run(s, moves + [m]) == Step(Run(s, moves), m)
    decreases |moves|
  {
    hide Step;
    if moves == [] {
      assert ([m])[1..] == [];
    } else {
      assert (moves + [m])[1..] == moves[1..] + [m];
      RunSnoc(Step(s, moves[0]), moves[1..], m);
    }
  }

  lemma RunNothing(s: State)
    requires |s.fifo| == FIFO_LEN
    ensures Run(s, []) == s
  {
  }

  lemma More(s: State, moves: seq<Move>, m: Move) returns (more: seq<Move>, t: State)
    requires |s.fifo| == FIFO_LEN
    ensures t == Run(s, more) && t == Step(Run(s, moves), m) && more == moves + [m]
  {
    hide Step;
    RunSnoc(s, moves, m);
    more := moves + [m];
    t := Run(s, more);
  }

  /** An uninterrupted turn of core 1 therefore never does. */
  lemma UninterruptedTurn(s: State)
    requires Inv(s) && s.consumer == CIdle && s.running && !s.blocked
    ensures |s.fifo| == FIFO_LEN
    ensures var t := Run(s, [Core1, Core1, Core1, Core1, Core1, Core1]); t.blocked ==> !t.stale && t.played == t.block
  {
    hide Run, Inv, ConsumerStep;
    RunKeeps(s, [Core1, Core1, Core1, Core1, Core1, Core1]);
    RunNothing(s);
    var moves, t := More(s, [], Core1);
    TurnStep(s);
    var u := t;
    moves, t := More(s, moves, Core1);
    TurnStep(u);
    u := t;
    moves, t := More(s, moves, Core1);
    TurnStep(u);
    u := t;
    moves, t := More(s, moves, Core1);
    TurnStep(u);
    u := t;
    moves, t := More(s, moves, Core1);
    TurnStep(u);
    u := t;
    moves, t := More(s, moves, Core1);
    TurnStep(u);
    assert moves == [Core1, Core1, Core1, Core1, Core1, Core1];
    if t.blocked { AllPlayed(t); }
  }

  /** Core 1 alone never leaves its index behind, and blocks only at the end of a turn. */
  predicate TurnsOn(s: State, t: State) {
    && (HoldsIndex(t.consumer) ==> !t.stale)
    && (t.blocked ==> s.consumer.CStored? && t.consumer == CFinish && !t.stale)
    && match s.consumer
       case CIdle => t.consumer == CIdle || t.consumer.CLoadedP?
       case CLoadedP(_) => t.consumer == CIdle || t.consumer.CLoaded?
       case CLoaded(_, _, _) => t.consumer.CSample?
       case CSample(_, _, _, _) => t.consumer.CPlayed?
       case CPlayed(_, _, _) => t.consumer.CStored?
       case _ => true
  }

  lemma TurnStep(s: State)
    requires |s.fifo| == FIFO_LEN && !s.blocked && (HoldsIndex(s.consumer) ==> !s.stale)
    ensures TurnsOn(s, ConsumerStep(s))
  {
    hide ConsumerStep, TurnsOn;
    match s.consumer
    case CIdle => TurnStarts(s);
    case CLoadedP(_) => TurnStarts(s);
    case CLoaded(_, _, _) => TurnPlays(s);
    case CSample(_, _, _, _) => TurnPlays(s);
    case CPlayed(_, _, _) => TurnPlays(s);
    case _ => TurnEnds(s);
  }

  lemma TurnStarts(s: State)
    requires |s.fifo| == FIFO_LEN && !s.blocked && (s.consumer.CIdle? || s.consumer.CLoadedP?)
    ensures TurnsOn(s, ConsumerStep(s))
  {
    if s.consumer.CIdle? {
      assert ConsumerStep(s) == if s.running then s.(consumer := CLoadedP(s.fifoP)) else s;
    } else {
      assert ConsumerStep(s) == if s.consumer.p == s.fifoQ then s.(consumer := CIdle)
                                else s.(consumer := CLoaded(s.consumer.p, s.fifoQ, s.pos), stale := false);
    }
  }

  lemma TurnPlays(s: State)
    requires |s.fifo| == FIFO_LEN && !s.blocked && (HoldsIndex(s.consumer) ==> !s.stale)
    requires s.consumer.CLoaded? || s.consumer.CSample? || s.consumer.CPlayed?
    ensures TurnsOn(s, ConsumerStep(s))
  {
    hide Masked, Wrapped;
  }

  lemma TurnEnds(s: State)
    requires |s.fifo| == FIFO_LEN && !s.blocked && (HoldsIndex(s.consumer) ==> !s.stale)
    requires s.consumer.CStored? || s.consumer.CWake? || s.consumer.CHold? || s.consumer.CFinish?
    ensures TurnsOn(s, ConsumerStep(s))
  {
  }

  lemma AllPlayed(t: State)
    requires Inv(t) && t.blocked && !t.stale
    ensures t.played == t.block
  {
    hide Contents, LastAlone, ProducerOk, ConsumerOk;
    assert t.block[..|t.block|] == t.block;
  }

  /** Core 0 delivers the first of two bytes. */
  lemma FirstIn(s: State) returns (moves: seq<Move>, t: State)
    requires |s.fifo| == FIFO_LEN && s == Start(s.block, true, s.fifo, 0) && |s.block| == 2
    ensures t == Run(s, moves) && t == s.(fifo := t.fifo, fifoQ := 1, pos := 1) && |t.fifo| == FIFO_LEN
  {
    hide Run, ConsumerStep, ServiceStep;
    RunNothing(s);
    moves, t := More(s, [], Core0);
    moves, t := More(s, moves, Core0);
    moves, t := More(s, moves, Core0);
    moves, t := More(s, moves, Core0);
    moves, t := More(s, moves, Core0);
  }

  /** Core 1 plays the one byte queued and advances its index. */
  lemma PlayOne(s: State, before: seq<Move>, u: State, n: nat) returns (moves: seq<Move>, t: State)
    requires |s.fifo| == FIFO_LEN && u == Run(s, before) && |u.fifo| == FIFO_LEN && n < 2
    requires u.consumer == CIdle && u.running && !u.blocked && u.fifoP == u.taken == n && u.fifoQ == u.pos == n + 1
    ensures t == Run(s, moves) && |t.played| == |u.played| + 1
    ensures t == u.(consumer := CStored(n + 1, n + 1, n + 1), fifoP := n + 1, taken := n + 1, played := t.played,
                    stale := false)
  {
    hide Run, ProducerStep, ServiceStep;
    moves, t := More(s, before, Core1);
    assert t == u.(consumer := CLoadedP(n));
    moves, t := More(s, moves, Core1);
    assert t == u.(consumer := CLoaded(n, n + 1, n + 1), stale := false);
    moves, t := More(s, moves, Core1);
    var x := u.fifo[Masked(n)];
    assert t == u.(consumer := CSample(n, n + 1, n + 1, x), stale := false);
    moves, t := More(s, moves, Core1);
    assert t == u.(consumer := CPlayed(n, n + 1, n + 1), played := u.played + [x], stale := false);
    moves, t := More(s, moves, Core1);
  }

  /** Core 0 delivers the second byte. */
  lemma SecondIn(s: State, before: seq<Move>, u: State) returns (moves: seq<Move>, t: State)
    requires |s.fifo| == FIFO_LEN && |s.block| == 2 && u == Run(s, before) && |u.fifo| == FIFO_LEN && u.block == s.block
    requires u.producer == PIdle && u.dreq && u.running && !u.producerDone
    requires u.pos == u.fifoP == u.fifoQ == 1
    ensures t == Run(s, moves) && |t.fifo| == FIFO_LEN
    ensures t == u.(fifo := t.fifo, fifoQ := 2, pos := 2, producer := PFinish,
                    stale := u.stale || HoldsIndex(u.consumer))
  {
    hide Run, ConsumerStep, ServiceStep;
    moves, t := More(s, before, Core0);
    assert t == u.(producer := PLoadedP(1, u.taken));
    moves, t := More(s, moves, Core0);
    assert t == u.(producer := PCopying(1, 1, 0));
    moves, t := More(s, moves, Core0);
    assert t == u.(fifo := t.fifo, producer := PCopying(1, 1, 1));
    moves, t := More(s, moves, Core0);
  }

  /** It sets the done flag, lowers the request and raises the interrupt. */
  lemma DoneSet(s: State, before: seq<Move>, u: State) returns (moves: seq<Move>, t: State)
    requires |s.fifo| == FIFO_LEN && u == Run(s, before) && |u.fifo| == FIFO_LEN
    requires u.producer == PFinish && u.irqEnabled
    ensures t == Run(s, moves) && t == u.(producerDone := true, irq := true, dreq := false, producer := PIdle)
  {
    hide Run, ConsumerStep, ServiceStep;
    moves, t := More(s, before, Core0);
    assert t == u.(producerDone := true, producer := PDrop);
    moves, t := More(s, moves, Core0);
    assert t == u.(producerDone := true, dreq := false, producer := PInterrupt);
    moves, t := More(s, moves, Core0);
  }

  /**
   The race: core 1 then reports completion, core 0 stops the channel, and the
   last sample is never played.
   */
  lemma LostSampleExample(a: byte, b: byte) returns (moves: seq<Move>)
    ensures var t := Run(Start([a, b], true, seq(FIFO_LEN, _ => 0), 0), moves);
            t.irq && !t.running && t.consumer == CIdle && t.producer == PIdle && |t.played| == 1 && t.stale
  {
    hide Run, ProducerStep;
    var s := Start([a, b], true, seq(FIFO_LEN, _ => 0), 0);
    var t;
    moves, t := FirstIn(s);
    moves, t := PlayOne(s, moves, t, 0);
    moves, t := SecondIn(s, moves, t);
    moves, t := DoneSet(s, moves, t);
    moves, t := More(s, moves, Core1);
    moves, t := More(s, moves, Core1);
    moves, t := More(s, moves, Service);
  }

  /** A channel that has stopped plays nothing more. */
  lemma {:induction false} StoppedStays(s: State, moves: seq<Move>)
    requires |s.fifo| == FIFO_LEN && !s.running && s.consumer == CIdle
    ensures Run(s, moves).played == s.played
    decreases |moves|
  {
    hide Step;
    if moves != [] {
      StoppedStep(s, moves[0]);
      StoppedStays(Step(s, moves[0]), moves[1..]);
    }
  }

  lemma StoppedStep(s: State, m: Move)
    requires |s.fifo| == FIFO_LEN && !s.running && s.consumer == CIdle
    ensures var t := Step(s, m); !t.running && t.consumer == CIdle && t.played == s.played
  {
    hide ProducerStep;
    ProducerFrame(s);
  }
}
