/**
 Whole runs: any sequence of 8-, 16- and 32-bit accesses, on the flat memory and
 on the paged one.
 */
module MemoryRuns {
  import opened GuestMemory
  import opened PageTable
  import opened Paging

  datatype Access = Read(addr: nat, w: nat) | Write(addr: nat, w: nat, v: nat)

  predicate InSpace(op: Access) {
    (op.w == 1 || op.w == 2 || op.w == 4) && op.addr + op.w <= SPACE
  }

  /** The flat memory after a run. */
  function FlatMemory(m: seq<byte>, ops: seq<Access>): (r: seq<byte>)
    requires |m| == SPACE && forall i :: 0 <= i < |ops| ==> InSpace(ops[i])
    ensures |r| == SPACE
  {
    if ops == [] then m
    else
      var before := FlatMemory(m, ops[..|ops| - 1]);
      var op := ops[|ops| - 1];
      assert InSpace(op);
      if op.Read? then before else Store(before, op.addr, op.w, op.v)
  }

  /** What access `i` of a run on the flat memory returns (0 for a store). */
  function FlatResult(m: seq<byte>, ops: seq<Access>, i: nat): (v: nat)
    requires |m| == SPACE && i < |ops| && forall k :: 0 <= k < |ops| ==> InSpace(ops[k])
  {
    assert InSpace(ops[i]);
    if ops[i].Read? then Load(FlatMemory(m, ops[..i]), ops[i].addr, ops[i].w) else 0
  }

  /** The pages a run touches. */
  function Touched(ops: seq<Access>): (r: set<nat>) {
    if ops == [] then {} else Touched(ops[..|ops| - 1]) + PagesOf(ops[|ops| - 1].addr, ops[|ops| - 1].w)
  }

  /** Loads agree wherever no failure has hit. */
  lemma AgreeLoad(a: seq<byte>, b: seq<byte>, lost: set<nat>, addr: nat, w: nat)
    requires |a| == |b| == SPACE && Agree(a, b, lost) && Sound(lost, addr, w)
    requires InSpace(Read(addr, w))
    ensures Load(a, addr, w) == Load(b, addr, w)
  {
    forall x | addr <= x < addr + w ensures a[x] == b[x] {
      assert SamePageAsEnd(addr, x - addr, w);
      AgreeByte(a, b, lost, x);
    }
    assert a[addr..addr + w] == b[addr..addr + w];
  }

  /** Equal stores keep memories in agreement. */
  lemma AgreeStore(a: seq<byte>, b: seq<byte>, lost: set<nat>, addr: nat, w: nat, v: nat)
    requires |a| == |b| == SPACE && Agree(a, b, lost) && InSpace(Write(addr, w, v))
    ensures Agree(Store(a, addr, w, v), Store(b, addr, w, v), lost)
  {
    AgreeSplice(a, b, lost, addr, ToBytes(v, w));
  }

  method Perform(r: GuestRam, op: Access) returns (v: nat)
    requires r.Valid() && InSpace(op)
    modifies r.Repr()
    ensures r.Valid() && Grows(old(r.Harms()), r.Harms(), PagesOf(op.addr, op.w))
    ensures op.Read? ==> Agree(r.mem, old(r.mem), r.lost)
    ensures op.Read? && Sound(r.lost, op.addr, op.w) ==> v == Load(old(r.mem), op.addr, op.w)
    ensures op.Write? ==> v == 0 && Agree(r.mem, Store(old(r.mem), op.addr, op.w, op.v), r.lost)
  {
    hide Coherent, Agree, Grows, PagesOf, Absent;
    v := 0;
    OnePage(op.addr, op.w, 0);
    GrowsWider(r.Harms(), {op.addr / PAGE_SIZE}, PagesOf(op.addr, op.w));
    match op
    case Read(a, w) =>
      if w == 1 {
        v := r.Load8(a);
        assert old(r.mem)[a..a + 1] == [old(r.mem)[a]];
        FromBytes1(old(r.mem)[a]);
      } else if w == 2 {
        v := r.Load16(a);
      } else {
        v := r.Load32(a);
      }
    case Write(a, w, x) =>
      if w == 1 {
        ToBytes1(x);
        assert Store(r.mem, a, 1, x) == r.mem[a := x % 256];
        r.Store8(a, x % 256);
      } else if w == 2 {
        r.Store16(a, x);
      } else {
        r.Store32(a, x);
      }
  }

  /**
   The paged backend over a whole run.  Every load of a page no backing failure
   has hit returns what the flat memory returns.  The pages lost are exactly those
   whose transfer failed during the run, each of them touched by the run or resident
   before it.  On a device that does not fail every load is right and the memories
   are equal at the end.
   */
  method RunPaged(r: GuestRam, ops: seq<Access>) returns (outs: seq<nat>)
    requires r.Valid() && forall i :: 0 <= i < |ops| ==> InSpace(ops[i])
    modifies r.Repr()
    ensures r.Valid() && Agree(r.mem, FlatMemory(old(r.mem), ops), r.lost)
    ensures Grows(old(r.Harms()), r.Harms(), Touched(ops))
    ensures |outs| == |ops|
    ensures forall i :: 0 <= i < |ops| && Sound(r.lost, ops[i].addr, ops[i].w) ==>
              outs[i] == FlatResult(old(r.mem), ops, i)
    ensures r.NeverFails() ==> r.mem == FlatMemory(old(r.mem), ops)
    ensures r.NeverFails() ==> forall i :: 0 <= i < |ops| ==> outs[i] == FlatResult(old(r.mem), ops, i)
  {
    hide Coherent, Agree, Grows, PagesOf, Shape, Load, Store;
    outs := [];
    ghost var m0, h0 := r.mem, r.Harms();
    GrowsNot(h0, {});
    AgreeRefl(m0, r.lost);
    var i := 0;
    while i < |ops|
      invariant i <= |ops| && |outs| == i
      invariant r.Valid() && |m0| == SPACE
      invariant Agree(r.mem, FlatMemory(m0, ops[..i]), r.lost) && Grows(h0, r.Harms(), Touched(ops[..i]))
      invariant forall k :: 0 <= k < i && Sound(r.lost, ops[k].addr, ops[k].w) ==> outs[k] == FlatResult(m0, ops, k)
    {
      ghost var was, flat := r.mem, FlatMemory(m0, ops[..i]);
      ghost var l, h := r.lost, r.Harms();
      var v := Perform(r, ops[i]);
      assert ops[..i + 1][..i] == ops[..i];
      GrowsTrans(h0, h, r.Harms(), Touched(ops[..i]), PagesOf(ops[i].addr, ops[i].w), Touched(ops[..i + 1]));
      Follow(was, flat, r.mem, l, r.lost, ops[i]);
      if Sound(r.lost, ops[i].addr, ops[i].w) && ops[i].Read? {
        AgreeLoad(was, flat, l, ops[i].addr, ops[i].w);
      }
      outs := outs + [v];
      i := i + 1;
    }
    assert ops[..i] == ops;
    if r.NeverFails() { AgreeExact(r.mem, FlatMemory(m0, ops)); }
  }

  /** One access takes a memory agreeing with the flat one to one agreeing with its successor. */
  lemma Follow(was: seq<byte>, flat: seq<byte>, now: seq<byte>, l: set<nat>, lost: set<nat>, op: Access)
    requires |was| == |flat| == |now| == SPACE && Agree(was, flat, l) && l <= lost && InSpace(op)
    requires op.Read? ==> Agree(now, was, lost)
    requires op.Write? ==> Agree(now, Store(was, op.addr, op.w, op.v), lost)
    ensures op.Read? ==> Agree(now, flat, lost)
    ensures op.Write? ==> Agree(now, Store(flat, op.addr, op.w, op.v), lost)
  {
    hide Agree;
    if op.Read? {
      AgreeTrans(now, was, flat, l, lost);
    } else {
      AgreeStore(was, flat, l, op.addr, op.w, op.v);
      AgreeTrans(now, Store(was, op.addr, op.w, op.v), Store(flat, op.addr, op.w, op.v), l, lost);
    }
  }
}
