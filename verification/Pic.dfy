/**
 The 8259 pair.  A chip's requests and services are sets of lines; the ghost
 stack lists the lines in service in the order they were acknowledged.
 */
module Pic {

  type line = l: nat | l < 8

  /** 0 is the highest priority; `add` is the line that has it. */
  function Rank(l: line, add: line): (r: nat)
    ensures r < 8
  {
    if l >= add then l - add else l + 8 - add
  }

  function LineOf(rank: nat, add: line): (l: line) { (rank + add) % 8 }

  lemma RankOf(p: line, add: line)
    ensures Rank(LineOf(p, add), add) == p && LineOf(Rank(p, add), add) == p
  {
  }

  /** The order of priority by line numbers: upwards from `add`, around the end. */
  lemma PriorityOrder(l: line, k: line, add: line)
    ensures Rank(l, add) < Rank(k, add) <==> (l + 8 - add) % 8 < (k + 8 - add) % 8
    ensures add == 0 ==> (Rank(l, add) < Rank(k, add) <==> l < k)
  {
  }

  /** No line of the set comes before `l` in that order; after reset, `l` is the least. */
  ghost predicate First(l: line, lines: set<line>, add: line) {
    && (forall k :: k in lines ==> (l + 8 - add) % 8 <= (k + 8 - add) % 8)
    && (add == 0 ==> forall k :: k in lines ==> l <= k)
  }

  lemma FirstIs(l: line, lines: set<line>, add: line)
    requires forall k :: k in lines ==> Rank(l, add) <= Rank(k, add)
    ensures First(l, lines, add)
  {
    hide Rank;
    forall k | k in lines ensures (l + 8 - add) % 8 <= (k + 8 - add) % 8 && (add == 0 ==> l <= k) {
      PriorityOrder(k, l, add);
    }
  }

  /** After a rotation to `low` that line loses to every other, and the next one beats every other. */
  lemma RotatedOrder(low: line, l: line)
    ensures l != low ==> Rank(l, (low + 1) % 8) < Rank(low, (low + 1) % 8)
    ensures l != (low + 1) % 8 ==> Rank((low + 1) % 8, (low + 1) % 8) < Rank(l, (low + 1) % 8)
  {
  }

  /** Every later acknowledgement has a higher priority than all before it. */
  ghost predicate Nested(stack: seq<line>, add: line)
  {
    forall i, j :: 0 <= i < j < |stack| ==> Rank(stack[j], add) < Rank(stack[i], add)
  }

  ghost predicate Lists(stack: seq<line>, isr: set<line>) {
    forall l :: l in isr <==> l in stack
  }

  /** get_priority: the rank of the highest-priority line in `mask`, or 8. */
  method GetPriority(mask: set<line>, add: line) returns (p: nat)
    ensures p <= 8 && (p == 8 <==> mask == {})
    ensures p < 8 ==> LineOf(p, add) in mask
    ensures forall l :: l in mask ==> p <= Rank(l, add)
    ensures p < 8 ==> (p + add) % 8 in mask && forall l :: l in mask ==> p <= (l + 8 - add) % 8
  {
    if mask == {} { return 8; }
    p := 0;
    ghost var some :| some in mask;
    RankOf(some, add);
    while LineOf(p, add) !in mask
      invariant p <= Rank(some, add)
      invariant forall l :: l in mask ==> p <= Rank(l, add)
      decreases 8 - p
    {
      forall l | l in mask ensures p + 1 <= Rank(l, add) { RankOf(l, add); }
      p := p + 1;
    }
  }

  class PicState {
    const isMaster: bool
    var lastIrr: set<line>
    var irr: set<line>
    var imr: set<line>
    var isr: set<line>
    var add: line                        // priority_add
    var specialMask: bool
    var autoEoi: bool
    var rotateOnAutoEoi: bool
    var specialFullyNested: bool
    ghost var stack: seq<line>            // lines in service, oldest first
    ghost var nested: bool               // no mode outside fully nested operation since the last reset
    ghost var edges: line -> nat          // rising edges of each line since then
    ghost var acks: line -> nat           // acknowledgements of each line

    ghost predicate Valid()
      reads this
    {
      Counted() && Stacked()
    }

    /** A line is acknowledged at most once for each of its rising edges. */
    ghost predicate Counted()
      reads `irr, `edges, `acks
    {
      forall l: line :: acks(l) + (if l in irr then 1 else 0) <= edges(l)
    }

    /** Fully nested operation: the services form a stack of strictly increasing priority. */
    ghost predicate Stacked()
      reads `isr, `add, `specialMask, `autoEoi, `specialFullyNested, `stack, `nested
    {
      nested ==> !specialMask && !autoEoi && !specialFullyNested && Lists(stack, isr) && Nested(stack, add)
    }

    constructor (isMaster: bool)
      ensures Valid() && nested && stack == [] && isr == irr == imr == lastIrr == {} && this.isMaster == isMaster
      ensures add == 0 && !specialMask && !autoEoi && !rotateOnAutoEoi && !specialFullyNested
    {
      this.isMaster := isMaster;
      lastIrr, irr, imr, isr, add := {}, {}, {}, {}, 0;
      specialMask, autoEoi, rotateOnAutoEoi, specialFullyNested := false, false, false, false;
      stack, nested, edges, acks := [], true, _ => 0, _ => 0;
    }

    /** The services that count against a new request. */
    function Serving(): (mask: set<line>)
      reads this
    {
      var unmasked := if specialMask then isr - imr else isr;
      if specialFullyNested && isMaster then unmasked - {2} else unmasked
    }

    /** A request the chip may pass on: unmasked, and of higher priority than every service. */
    ghost predicate Deliverable(l: line)
        reads this
    {
      l in irr && l !in imr && forall k :: k in Serving() ==> Rank(l, add) < Rank(k, add)
    }

    /**
     The same by line numbers.  In the order after reset a request passes exactly when it
     is below every service that counts: under a special mask the unmasked ones, and in
     special fully nested mode not the cascade of the master.
     */
    lemma DeliverableMeans(l: line)
      ensures Deliverable(l) <==>
                && l in irr && l !in imr
                && forall k :: k in isr && !(specialMask && k in imr) && !(specialFullyNested && isMaster && k == 2) ==>
                     (l + 8 - add) % 8 < (k + 8 - add) % 8
      ensures add == 0 ==>
                (Deliverable(l) <==>
                  && l in irr && l !in imr
                  && forall k ::
                       k in isr && !(specialMask && k in imr) && !(specialFullyNested && isMaster && k == 2) ==> l < k)
    {
      hide Rank;
      assert forall k :: k in Serving() <==>
               k in isr && !(specialMask && k in imr) && !(specialFullyNested && isMaster && k == 2);
      forall k: line ensures Rank(l, add) < Rank(k, add) <==> (l + 8 - add) % 8 < (k + 8 - add) % 8 {
        PriorityOrder(l, k, add);
      }
    }

    ghost predicate Wants()
        reads this
    {
      exists l :: Deliverable(l)
    }

    /** pic_set_irq1. */
    method SetIrq1(irq: line, level: bool)
      requires Valid()
      modifies `irr, `lastIrr, `edges
      ensures Valid()
      ensures irr == if level && irq !in old(lastIrr) then old(irr) + {irq} else old(irr)
      ensures lastIrr == if level then old(lastIrr) + {irq} else old(lastIrr) - {irq}
      ensures forall l :: edges(l) == old(edges(l)) + if l == irq && level && irq !in old(lastIrr) then 1 else 0
    {
      hide Rank, Nested, Lists;
      if level {
        if irq !in lastIrr {
          irr := irr + {irq};
          ghost var was := edges;
          edges := l => was(l) + if l == irq then 1 else 0;
        }
        lastIrr := lastIrr + {irq};
      } else {
        lastIrr := lastIrr - {irq};
      }
    }

    /** pic_get_irq: the highest-priority deliverable request, or -1. */
    method GetIrq() returns (irq: int)
      requires Valid()
      ensures -1 <= irq < 8 && (irq >= 0 <==> Wants())
      ensures irq >= 0 ==> Deliverable(irq) && forall l :: l in irr - imr ==> Rank(irq, add) <= Rank(l, add)
      ensures irq >= 0 ==> First(irq, irr - imr, add)
    {
      hide First;
      var priority := GetPriority(irr - imr, add);
      if priority == 8 { return -1; }
      var mask := isr;
      if specialMask { mask := mask - imr; }
      if specialFullyNested && isMaster { mask := mask - {2}; }
      var current := GetPriority(mask, add);
      RankOf(priority, add);
      if priority < current {
        irq := LineOf(priority, add);
        FirstIs(irq, irr - imr, add);
        assert Deliverable(irq);
      } else {
        irq := -1;
        RankOf(current, add);
      }
    }

    /** pic_intack. */
    method Intack(irq: line)
      requires Valid() && Deliverable(irq)
      modifies `irr, `isr, `add, `stack, `acks
      ensures Valid() && irr == old(irr) - {irq}
      ensures nested ==> stack == old(stack) + [irq] && isr == old(isr) + {irq} && add == old(add)
      ensures forall l :: acks(l) == old(acks(l)) + if l == irq then 1 else 0
    {
      if autoEoi {
        if rotateOnAutoEoi { add := (irq + 1) % 8; }
      } else {
        isr := isr + {irq};
        stack := stack + [irq];
      }
      irr := irr - {irq};
      ghost var was := acks;
      acks := l => was(l) + if l == irq then 1 else 0;
    }

    /** Retire one service: a specific end of interrupt. */
    method Retire(irq: line)
      requires Valid()
      modifies `isr, `stack
      ensures Valid() && isr == old(isr) - {irq}
      ensures nested ==> stack == Without(old(stack), irq)
    {
      isr := isr - {irq};
      WithoutNested(stack, irq, add);
      stack := Without(stack, irq);
    }

    /** A non-specific end of interrupt retires the service with the highest priority: the most recent one. */
    method EndOfInterrupt() returns (irq: int)
      requires Valid()
      modifies `isr, `stack
      ensures Valid() && -1 <= irq < 8 && (irq == -1 <==> old(isr) == {})
      ensures if irq >= 0 then irq in old(isr) && isr == old(isr) - {irq} else isr == {}
      ensures irq >= 0 ==> forall l :: l in old(isr) ==> Rank(irq, add) <= Rank(l, add)
      ensures irq >= 0 ==> First(irq, old(isr), add)
      ensures nested && irq == -1 ==> stack == old(stack) == []
      ensures nested && irq >= 0 ==>
                |old(stack)| > 0 && irq == old(stack)[|old(stack)| - 1] && stack == old(stack)[..|old(stack)| - 1]
    {
      hide First;
      var priority := GetPriority(isr, add);
      if nested { EmptyTogether(stack, isr); }
      if priority == 8 { return -1; }
      RankOf(priority, add);
      irq := LineOf(priority, add);
      FirstIs(irq, isr, add);
      if nested { TopIsHighest(stack, isr, irq, add); }
      Retire(irq);
    }

    /** Leaving fully nested operation by changing a mode. */
    method SetModes(specialMask: bool, autoEoi: bool, rotateOnAutoEoi: bool, specialFullyNested: bool)
      requires Valid()
      modifies `specialMask, `autoEoi, `rotateOnAutoEoi, `specialFullyNested, `nested
      ensures Valid()
      ensures this.specialMask == specialMask && this.autoEoi == autoEoi
      ensures this.rotateOnAutoEoi == rotateOnAutoEoi && this.specialFullyNested == specialFullyNested
      ensures nested == (old(nested) && !specialMask && !autoEoi && !specialFullyNested)
    {
      this.specialMask, this.autoEoi := specialMask, autoEoi;
      this.rotateOnAutoEoi, this.specialFullyNested := rotateOnAutoEoi, specialFullyNested;
      nested := nested && !specialMask && !autoEoi && !specialFullyNested;
    }

    /** A rotation; it keeps the stack only when nothing is in service. */
    method Rotate(to: line)
      requires Valid()
      modifies `add, `nested
      ensures Valid() && add == to && nested == (old(nested) && isr == {})
    {
      if nested { EmptyTogether(stack, isr); }
      add := to;
      nested := nested && isr == {};
    }

    /** What an end-of-interrupt or rotation command does to the chip; `retired` is the service it found by priority. */
    twostate predicate Commanded(cmd: nat, low: line, retired: int)
      reads this
    {
      && (cmd == 1 || cmd == 5 ==>
           && -1 <= retired < 8 && (retired == -1 <==> old(isr) == {})
           && isr == old(isr) - (if retired >= 0 then {retired} else {})
           && (retired >= 0 ==> First(retired, old(isr), old(add)))
           && (nested ==> if old(stack) == [] then retired == -1 && stack == []
                          else retired == old(stack)[|old(stack)| - 1] && stack == old(stack)[..|old(stack)| - 1]))
      && (cmd == 3 || cmd == 7 ==> isr == old(isr) - {low} && (nested ==> stack == Without(old(stack), low)))
      && (cmd in {0, 2, 4, 6} ==> isr == old(isr) && stack == old(stack))
      && (cmd in {0, 1, 2, 3, 4} ==> nested == old(nested))
      && add == (if cmd == 6 || cmd == 7 then (low + 1) % 8
                 else if cmd == 5 && retired >= 0 then (retired + 1) % 8 else old(add))
      && rotateOnAutoEoi == (if cmd == 0 || cmd == 4 then cmd == 4 else old(rotateOnAutoEoi))
    }

    /** The commands of OCW2; `update` tells whether the interrupt output has to be looked at again. */
    method Command(cmd: nat, low: line) returns (retired: int, update: bool)
      requires Valid() && cmd < 8
      modifies `isr, `stack, `add, `nested, `rotateOnAutoEoi, `specialMask, `autoEoi, `specialFullyNested
      ensures Valid() && Commanded(cmd, low, retired)
      ensures specialMask == old(specialMask) && specialFullyNested == old(specialFullyNested)
      ensures autoEoi == old(autoEoi)
      ensures !update ==> isr == old(isr) && add == old(add)
    {
      hide Nested, Lists, Rank, First;
      retired, update := -1, false;
      if cmd == 0 || cmd == 4 {
        SetModes(specialMask, autoEoi, cmd == 4, specialFullyNested);
      } else if cmd == 1 || cmd == 5 {
        retired := EndOfInterrupt();
        update := retired >= 0;
        if cmd == 5 && update { Rotate((retired + 1) % 8); }
      } else if cmd == 3 || cmd == 7 {
        Retire(low);
        update := true;
        if cmd == 7 { Rotate((low + 1) % 8); }
      } else if cmd == 6 {
        Rotate((low + 1) % 8);
        update := true;
      }
    }
  }

  lemma EmptyTogether(stack: seq<line>, isr: set<line>)
    requires Lists(stack, isr)
    ensures stack == [] <==> isr == {}
  {
    assert stack != [] ==> stack[0] in isr;
  }

  /** The last of a nested stack is the only service of highest priority. */
  lemma TopIsHighest(stack: seq<line>, isr: set<line>, irq: line, add: line)
    requires Nested(stack, add) && Lists(stack, isr) && irq in isr
    requires forall l :: l in isr ==> Rank(irq, add) <= Rank(l, add)
    ensures |stack| > 0 && irq == stack[|stack| - 1] && Without(stack, irq) == stack[..|stack| - 1]
  {
    var i :| 0 <= i < |stack| && stack[i] == irq;
    var n := |stack| - 1;
    assert stack[n] in isr;
    forall j | 0 <= j < n ensures stack[j] != irq {
      assert Rank(stack[n], add) < Rank(stack[j], add);
    }
    WithoutAbsent(stack[..n], irq);
  }

  lemma {:induction false} WithoutAbsent(stack: seq<line>, l: line)
    requires l !in stack
    ensures Without(stack, l) == stack
  {
    if stack != [] {
      WithoutAbsent(stack[..|stack| - 1], l);
      assert stack == stack[..|stack| - 1] + [stack[|stack| - 1]];
    }
  }

  function Without(stack: seq<line>, l: line): (s: seq<line>) {
    if stack == [] then []
    else if stack[|stack| - 1] == l then Without(stack[..|stack| - 1], l)
    else Without(stack[..|stack| - 1], l) + [stack[|stack| - 1]]
  }

  lemma {:induction false} WithoutNested(stack: seq<line>, l: line, add: line)
    ensures forall k :: k in Without(stack, l) <==> k in stack && k != l
    ensures Nested(stack, add) ==> Nested(Without(stack, l), add)
  {
    if stack != [] {
      var rest, last := stack[..|stack| - 1], stack[|stack| - 1];
      assert stack == rest + [last];
      WithoutNested(rest, l, add);
      assert Nested(stack, add) ==> Nested(rest, add);
      if last != l && Nested(stack, add) {
        forall k | k in rest ensures Rank(last, add) < Rank(k, add) {
          var i :| 0 <= i < |rest| && rest[i] == k;
          assert stack[i] == k && stack[|rest|] == last;
        }
      }
    }
  }

  class PicPair {
    const master: PicState
    const slave: PicState
    const masterBase: nat
    const slaveBase: nat
    var raised: nat                      // calls of raise_fn

    /** Nothing but the slave drives the cascade input. */
    ghost predicate Valid()
      reads this, master, slave
    {
      master != slave && master.Valid() && slave.Valid() && 2 !in master.lastIrr
    }

    /** A deliverable request of the slave is pending at the master. */
    ghost predicate Cascaded()
      reads slave, master
    {
      slave.Wants() ==> 2 in master.irr
    }

    /** After initialisation with 8-aligned vector bases. */
    constructor (masterBase: nat, slaveBase: nat)
      requires masterBase % 8 == slaveBase % 8 == 0
      ensures Valid() && Cascaded() && fresh(master) && fresh(slave) && raised == 0
      ensures master.nested && slave.nested && master.stack == slave.stack == [] && master.add == slave.add == 0
      ensures this.masterBase == masterBase && this.slaveBase == slaveBase
    {
      master := new PicState(true);
      slave := new PicState(false);
      this.masterBase, this.slaveBase := masterBase, slaveBase;
      raised := 0;
    }

    /** pic_update_irq. */
    method UpdateIrq()
      requires Valid()
      modifies this, master`irr, master`lastIrr, master`edges
      ensures Valid() && Cascaded()
      ensures raised == old(raised) + if master.Wants() then 1 else 0
      ensures master.irr == if slave.Wants() then old(master.irr) + {2} else old(master.irr)
      ensures master.lastIrr == old(master.lastIrr)
      ensures forall l: line :: l != 2 ==> master.edges(l) == old(master.edges(l))
    {
      hide Nested, Lists, Rank, First;
      var irq2 := slave.GetIrq();
      if irq2 >= 0 {
        master.SetIrq1(2, true);
        master.SetIrq1(2, false);
      }
      var irq := master.GetIrq();
      if irq >= 0 { raised := raised + 1; }
    }

    /** i8259_set_irq for a bus line. */
    method SetIrq(irq: nat, level: bool)
      requires Valid() && irq < 16 && irq != 2
      modifies this, master, slave
      ensures Valid() && Cascaded()
      ensures Untouched(master) && Untouched(slave) && SameMasks()
      ensures raised == old(raised) + if master.Wants() then 1 else 0
      ensures slave.irr ==
                if irq >= 8 && level && irq - 8 !in old(slave.lastIrr) then old(slave.irr) + {irq - 8}
                else old(slave.irr)
      ensures master.irr ==
                (if irq < 8 && level && irq !in old(master.lastIrr) then old(master.irr) + {irq} else old(master.irr))
                            + if slave.Wants() then {2} else {}
      ensures master.lastIrr == if irq >= 8 then old(master.lastIrr)
                                else if level then old(master.lastIrr) + {irq} else old(master.lastIrr) - {irq}
      ensures slave.lastIrr == if irq < 8 then old(slave.lastIrr)
                               else if level then old(slave.lastIrr) + {irq - 8} else old(slave.lastIrr) - {irq - 8}
    {
      hide Nested, Lists, Rank, First;
      if irq < 8 { master.SetIrq1(irq, level); } else { slave.SetIrq1(irq - 8, level); }
      UpdateIrq();
    }

    /** The services of a chip are as they were. */
    twostate predicate Untouched(c: PicState)
      reads c
    {
      && c.isr == old(c.isr) && c.stack == old(c.stack) && c.add == old(c.add)
      && c.nested == old(c.nested) && c.acks == old(c.acks)
    }

    twostate predicate SameMasks()
      reads master, slave
    {
      master.imr == old(master.imr) && slave.imr == old(slave.imr)
    }

    twostate predicate SameLevels()
      reads master, slave
    {
      master.lastIrr == old(master.lastIrr) && slave.lastIrr == old(slave.lastIrr)
    }

    /** One request of a chip has gone into service. */
    twostate predicate Acknowledged(c: PicState, l: line)
      requires old(c.Valid())
      reads c
    {
      && old(c.Deliverable(l))
      && (forall k :: k in old(c.irr - c.imr) ==> Rank(l, old(c.add)) <= Rank(k, old(c.add)))
      && First(l, old(c.irr - c.imr), old(c.add))
      && c.nested == old(c.nested)
      && (c.nested ==> c.stack == old(c.stack) + [l] && c.isr == old(c.isr) + {l})
      && (forall k: line :: c.acks(k) == old(c.acks(k)) + if k == l then 1 else 0)
    }

    /**
     i8259_read_irq: the vector of what goes into service (`m` at the master, `t` at the
     slave), or a spurious one.
     */
    method ReadIrq() returns (vector: nat, ghost m: int, ghost t: int)
      requires Valid()
      modifies this, master, slave
      ensures Valid() && Cascaded()
      ensures -1 <= m < 8 && (m == -1 <==> !old(master.Wants()))
      ensures -1 <= t < 8 && (t == -1 <==> m != 2 || !old(slave.Wants()))
      ensures if m == -1 then Untouched(master) else Acknowledged(master, m)
      ensures if t == -1 then Untouched(slave) else Acknowledged(slave, t)
      ensures slave.irr == (if t == -1 then old(slave.irr) else old(slave.irr) - {t}) && SameMasks() && SameLevels()
      ensures master.irr ==
                (if m == -1 then old(master.irr) else old(master.irr) - {m}) + if slave.Wants() then {2} else {}
      ensures vector == if m == -1 then masterBase + 7 else if m != 2 then masterBase + m
                        else if t == -1 then slaveBase + 7 else slaveBase + t
    {
      hide Nested, Lists, Rank, First;
      hide PicState.Counted, PicState.Stacked, PicState.Serving, PicState.Deliverable, PicState.Wants;
      var irq := master.GetIrq();
      m, t := irq, -1;
      if irq >= 0 {
        master.Intack(irq);
        if irq == 2 {
          var irq2 := slave.GetIrq();
          t := irq2;
          if irq2 >= 0 { slave.Intack(irq2); } else { irq2 := 7; }
          vector := slaveBase + irq2;
        } else {
          vector := masterBase + irq;
        }
      } else {
        vector := masterBase + 7;
      }
      UpdateIrq();
    }

    /** A chip that changed nothing priorities depend on wants what it wanted. */
    twostate lemma SameWants(c: PicState)
      requires c.irr == old(c.irr) && c.imr == old(c.imr) && c.isr == old(c.isr) && c.add == old(c.add)
      requires c.specialMask == old(c.specialMask) && c.specialFullyNested == old(c.specialFullyNested)
      ensures c.Wants() == old(c.Wants())
    {
      assert c.Serving() == old(c.Serving());
      assert forall l :: c.Deliverable(l) == old(c.Deliverable(l));
    }

    /** The end-of-interrupt commands of OCW2; `val` is the command byte. */
    method WriteOcw2(c: PicState, val: nat) returns (retired: int)
      requires Valid() && (c == master || c == slave) && val < 256 && val / 8 % 4 == 0
      modifies this, master, slave
      ensures Valid() && (old(Cascaded()) ==> Cascaded())
      ensures c.Commanded(val / 32, val % 8, retired)
      ensures Untouched(if c == master then slave else master) && SameMasks() && SameLevels()
      ensures slave.irr == old(slave.irr) && old(master.irr) <= master.irr <= old(master.irr) + {2}
    {
      hide Nested, Lists, Rank, First;
      hide PicState.Counted, PicState.Stacked, PicState.Serving, PicState.Deliverable, PicState.Wants;
      var update;
      retired, update := c.Command(val / 32, val % 8);
      if update { UpdateIrq(); } else { SameWants(slave); }
    }

    /** The interrupt mask register. */
    method WriteMask(c: PicState, imr: set<line>)
      requires Valid() && (c == master || c == slave)
      modifies this, master, slave
      ensures Valid() && Cascaded() && c.imr == imr && Untouched(master) && Untouched(slave) && SameLevels()
      ensures (if c == master then slave.imr == old(slave.imr) else master.imr == old(master.imr))
      ensures slave.irr == old(slave.irr)
      ensures master.irr == if slave.Wants() then old(master.irr) + {2} else old(master.irr)
    {
      hide Nested, Lists, Rank, First;
      c.imr := imr;
      UpdateIrq();
    }
  }
}
