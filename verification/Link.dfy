/**
 The two-chip link: the master writes request words, the slave serves them from
 its memory and writes reply words, and neither word says what it is.  Framing
 holds because of what each side still has to do, and that is what Drain says:
 the end of serving everything under way.

 A queue here may hold any number of words, so every run with bounded FIFOs is
 among the runs of this model.
 */
module Link {
  import opened Arith

  const WORD: nat := 0x1_0000_0000
  const ADDR_SPAN: nat := 0x1000_0000
  const PING_MAGIC: nat := 0xA5A5F00D

  const OP_READ32: nat := 1
  const OP_WRITE32: nat := 2
  const OP_PING: nat := 3
  const OP_READ_BURST: nat := 4
  const OP_WRITE_BURST: nat := 5

  type word = w: nat | w < WORD

  /** linkf_req. */
  function Request(op: nat, addr: nat): (w: word)
    requires op < 16
  {
    op * ADDR_SPAN + addr % ADDR_SPAN
  }

  /** Direct access to the slave's memory: out of range reads give 0, writes do nothing. */
  function Peek(mem: seq<word>, a: nat): (w: word) { if a < |mem| then mem[a] else 0 }

  function Poke(mem: seq<word>, a: nat, v: word): (m: seq<word>)
    ensures |m| == |mem|
  {
    if a < |mem| then mem[a := v] else mem
  }

  function PeekMany(mem: seq<word>, a: nat, n: nat): (ws: seq<word>)
    ensures |ws| == n
    decreases n
  {
    if n == 0 then [] else [Peek(mem, a)] + PeekMany(mem, (a + 1) % WORD, n - 1)
  }

  function PokeMany(mem: seq<word>, a: nat, vs: seq<word>): (m: seq<word>)
    ensures |m| == |mem|
    decreases |vs|
  {
    if vs == [] then mem else PokeMany(Poke(mem, a, vs[0]), (a + 1) % WORD, vs[1..])
  }

  /** Where the slave is inside linkf_serve. */
  datatype Ctrl =
    | Boundary
    | WantValue(addr: nat)
    | WantReadCount(addr: nat)
    | WantWriteCount(addr: nat)
    | Sending(addr: nat, left: nat)
    | Receiving(addr: nat, left: nat)

  datatype Served = Served(ctrl: Ctrl, mem: seq<word>, out: seq<word>)

  /** The slave takes one word from its receive FIFO. */
  function Take(c: Ctrl, mem: seq<word>, w: word): (r: Served)
    requires !c.Sending?
  {
    match c
    case Boundary =>
      var op, addr := w / ADDR_SPAN, w % ADDR_SPAN;
      if op == OP_READ32 then Served(Boundary, mem, [Peek(mem, addr)])
      else if op == OP_WRITE32 then Served(WantValue(addr), mem, [])
      else if op == OP_PING then Served(Boundary, mem, [PING_MAGIC])
      else if op == OP_READ_BURST then Served(WantReadCount(addr), mem, [])
      else if op == OP_WRITE_BURST then Served(WantWriteCount(addr), mem, [])
      else Served(Boundary, mem, [0])
    case WantValue(addr) => Served(Boundary, Poke(mem, addr, w), [])
    case WantReadCount(addr) => Served(if w == 0 then Boundary else Sending(addr, w), mem, [])
    case WantWriteCount(addr) => Served(if w == 0 then Boundary else Receiving(addr, w), mem, [])
    case Receiving(addr, left) =>
      Served(if left <= 1 then Boundary else Receiving((addr + 1) % WORD, left - 1), Poke(mem, addr, w), [])
  }

  /** The slave puts one word of a read burst into its transmit FIFO. */
  function Send(c: Ctrl, mem: seq<word>): (r: Served)
    requires c.Sending?
  {
    Served(if c.left <= 1 then Boundary else Sending((c.addr + 1) % WORD, c.left - 1), mem,
           if c.left == 0 then [] else [Peek(mem, c.addr)])
  }

  /** A burst under way, sent to its end. */
  function Flush(c: Ctrl, mem: seq<word>): (r: Served)
    ensures !r.ctrl.Sending?
  {
    if c.Sending? then Served(Boundary, mem, PeekMany(mem, c.addr, c.left)) else Served(c, mem, [])
  }

  function Before(first: seq<word>, r: Served): (s: Served) { r.(out := first + r.out) }

  /** Everything received and under way, served to the end. */
  function Drain(c: Ctrl, mem: seq<word>, input: seq<word>): (r: Served)
    ensures !r.ctrl.Sending?
    decreases |input|
  {
    var f := Flush(c, mem);
    if input == [] then f
    else
      var t := Take(f.ctrl, f.mem, input[0]);
      Before(f.out + t.out, Drain(t.ctrl, t.mem, input[1..]))
  }

  lemma {:induction false} DrainAppend(c: Ctrl, mem: seq<word>, input: seq<word>, more: seq<word>)
    ensures var r := Drain(c, mem, input); Drain(c, mem, input + more) == Before(r.out, Drain(r.ctrl, r.mem, more))
    decreases |input|
  {
    hide Take, Flush;
    var f := Flush(c, mem);
    if input == [] {
      assert input + more == more;
      FlushDrain(c, mem, more);
    } else {
      var t := Take(f.ctrl, f.mem, input[0]);
      assert (input + more)[0] == input[0] && (input + more)[1..] == input[1..] + more;
      DrainAppend(t.ctrl, t.mem, input[1..], more);
    }
  }

  /** Draining may start by finishing the burst under way. */
  lemma FlushDrain(c: Ctrl, mem: seq<word>, input: seq<word>)
    ensures var f := Flush(c, mem); Drain(c, mem, input) == Before(f.out, Drain(f.ctrl, f.mem, input))
  {
    hide Take, PeekMany;
    var f := Flush(c, mem);
    var g := Flush(f.ctrl, f.mem);
    assert g == Served(f.ctrl, f.mem, []);
    if input == [] {
      assert f.out + [] == f.out;
    } else {
      var t := Take(f.ctrl, f.mem, input[0]);
      JoinOut(f.out, g.out, t.out, Drain(t.ctrl, t.mem, input[1..]));
    }
  }

  lemma JoinOut(a: seq<word>, nothing: seq<word>, b: seq<word>, r: Served)
    requires nothing == []
    ensures Before(a + b, r) == Before(a, Before(nothing + b, r))
  {
    assert (a + b) + r.out == a + ((nothing + b) + r.out);
  }

  /** Sending one word of a burst leaves the same to be sent. */
  lemma SendDrains(c: Ctrl, mem: seq<word>, input: seq<word>)
    requires c.Sending?
    ensures var r := Send(c, mem); Drain(c, mem, input) == Before(r.out, Drain(r.ctrl, r.mem, input))
  {
    hide Take;
    var r := Send(c, mem);
    FlushDrain(c, mem, input);
    FlushDrain(r.ctrl, r.mem, input);
    if c.left > 0 {
      assert PeekMany(mem, c.addr, c.left) == r.out + Flush(r.ctrl, r.mem).out;
    }
  }

  lemma TakeDrains(c: Ctrl, mem: seq<word>, input: seq<word>)
    requires !c.Sending? && input != []
    ensures var r := Take(c, mem, input[0]); Drain(c, mem, input) == Before(r.out, Drain(r.ctrl, r.mem, input[1..]))
  {
    hide Take;
  }

  /** What serving one more word adds to a finished state. */
  function After(r: Served, w: word): (s: Served)
    requires !r.ctrl.Sending?
  {
    Before(r.out, Drain(r.ctrl, r.mem, [w]))
  }

  class Wire {
    var toSlave: seq<word>
    var toMaster: seq<word>
    var ctrl: Ctrl
    var base: seq<word>           // the slave's memory
    var broken: bool              // a wait has timed out

    constructor (base: seq<word>)
      ensures Settled() && !broken && Memory() == base
    {
      toSlave, toMaster, ctrl, this.base, broken := [], [], Boundary, base, false;
    }

    /** All that is on its way, served; `out` starts with the replies already waiting. */
    ghost function End(): (r: Served)
      reads this
      ensures !r.ctrl.Sending?
    {
      Before(toMaster, Drain(ctrl, base, toSlave))
    }

    /** The slave's memory once every posted write has arrived. */
    ghost function Memory(): (m: seq<word>)
      reads this
    {
      End().mem
    }

    ghost predicate Live()
      reads this
    {
      ctrl.Sending? ==> ctrl.left > 0
    }

    /** The master is at a request boundary, and so is the slave once it has caught up. */
    ghost predicate Settled()
      reads this
    {
      Live() && (!broken ==> End().ctrl == Boundary && End().out == [])
    }

    /** With nothing on the wire, both sides are at a request boundary. */
    lemma DrainedMeansBoundary()
      requires Settled() && !broken && toSlave == [] && toMaster == []
      ensures ctrl == Boundary && Memory() == base
    {
    }

    /** The slave answers a single-word request without looking at its transmit FIFO, which is then empty. */
    lemma UncheckedReplyFits()
      requires |End().out| <= 1 && !ctrl.Sending? && toSlave != [] && Take(ctrl, base, toSlave[0]).out != []
      ensures toMaster == []
    {
      TakeDrains(ctrl, base, toSlave);
      assert |End().out| >= |toMaster| + 1;
    }

    /** One word through the slave, if it has one to take or to send. */
    method SlaveStep()
      requires Live()
      modifies `toSlave, `toMaster, `ctrl, `base
      ensures End() == old(End()) && Live()
      ensures toMaster == old(toMaster) || toMaster != []
      ensures |toSlave| < old(|toSlave|) || (toSlave == old(toSlave) && (old(ctrl.Sending?) ==> toMaster != []))
      ensures old(toSlave) != [] && !old(ctrl.Sending?) ==> |toSlave| < old(|toSlave|)
    {
      hide Drain, Take, Peek;
      if ctrl.Sending? {
        SendDrains(ctrl, base, toSlave);
        var r := Send(ctrl, base);
        JoinOuts(toMaster, r.out, Drain(r.ctrl, r.mem, toSlave));
        toMaster, ctrl, base := toMaster + r.out, r.ctrl, r.mem;
      } else if toSlave != [] {
        TakeDrains(ctrl, base, toSlave);
        TakeLeft(ctrl, base, toSlave[0]);
        var r := Take(ctrl, base, toSlave[0]);
        JoinOuts(toMaster, r.out, Drain(r.ctrl, r.mem, toSlave[1..]));
        toMaster, ctrl, base, toSlave := toMaster + r.out, r.ctrl, r.mem, toSlave[1..];
      }
    }

    /** The slave runs beside the master, any number of steps at a time. */
    method SlaveRuns()
      requires Live()
      modifies `toSlave, `toMaster, `ctrl, `base
      ensures End() == old(End()) && Live()
    {
      hide Drain;
      var steps: nat := *;
      while steps > 0
        invariant End() == old(End()) && Live()
      {
        SlaveStep();
        steps := steps - 1;
      }
    }

    /** lf_put: the word goes out, or the wait for room times out. */
    method Put(w: word) returns (ok: bool)
      requires Live()
      modifies this
      ensures Live() && broken == (old(broken) || !ok)
      ensures ok ==> End() == After(old(End()), w)
    {
      hide Drain;
      SlaveRuns();
      ok := *;
      if !ok { broken := true; return; }
      DrainAppend(ctrl, base, toSlave, [w]);
      var r := Drain(ctrl, base, toSlave);
      JoinOuts(toMaster, r.out, Drain(r.ctrl, r.mem, [w]));
      toSlave := toSlave + [w];
    }

    /** One reply word, or a timeout. */
    method Get(timeout: nat) returns (ok: bool, w: word)
      requires Live()
      modifies this
      ensures Live() && broken == (old(broken) || !ok)
      ensures ok ==> old(End()).out != [] && w == old(End()).out[0]
      ensures ok ==> End() == old(End()).(out := old(End()).out[1..])
    {
      hide Drain;
      SlaveRuns();
      var spins := timeout;
      while toMaster == []
        invariant End() == old(End()) && Live() && broken == old(broken)
        decreases spins
      {
        if spins <= 1 { broken := true; return false, 0; }
        spins := spins - 1;
        SlaveRuns();
      }
      ok, w := true, toMaster[0];
      toMaster := toMaster[1..];
    }

    /** linkf_read32. */
    method Read32(addr: nat, timeout: nat) returns (ok: bool, v: word)
      requires Settled()
      modifies this
      ensures Settled() && broken == (old(broken) || !ok)
      ensures !broken ==> v == Peek(old(Memory()), addr % ADDR_SPAN) && Memory() == old(Memory())
    {
      hide Drain, Peek;
      v := 0;
      ServedRead(Memory(), addr);
      ok := Put(Request(OP_READ32, addr));
      if !ok { return; }
      ok, v := Get(timeout);
    }

    /** linkf_write32; it does not report a failure, and needs no reply. */
    method Write32(addr: nat, v: word)
      requires Settled()
      modifies this
      ensures Settled()
      ensures !broken ==> !old(broken) && Memory() == Poke(old(Memory()), addr % ADDR_SPAN, v)
    {
      hide Drain, Poke;
      ServedWrite(Memory(), addr, v);
      var ok := Put(Request(OP_WRITE32, addr));
      if ok { var _ := Put(v); }
    }

    /** linkf_ping. */
    method Ping(timeout: nat) returns (ok: bool)
      requires Settled()
      modifies this
      ensures Settled() && (ok ==> broken == old(broken)) && (!broken ==> ok && Memory() == old(Memory()))
    {
      hide Drain;
      ServedPing(Memory());
      ok := Put(Request(OP_PING, 0));
      if !ok { return; }
      var v;
      ok, v := Get(timeout);
      if ok { ok := v == PING_MAGIC; }
    }

    /** linkf_read_burst. */
    method ReadBurst(addr: nat, n: word, timeout: nat) returns (ok: bool, dst: seq<word>)
      requires Settled()
      modifies this
      ensures Settled() && broken == (old(broken) || !ok)
      ensures !broken ==> dst == PeekMany(old(Memory()), addr % ADDR_SPAN, n) && Memory() == old(Memory())
    {
      hide Drain, PeekMany;
      dst := [];
      ServedReadBurst(Memory(), addr, n);
      ok := Put(Request(OP_READ_BURST, addr));
      if !ok { return; }
      ok := Put(n);
      if !ok { return; }
      var i := 0;
      while i < n
        invariant 0 <= i <= n && |dst| == i && ok && Live() && broken == old(broken)
        invariant !broken ==> End().ctrl == Boundary && End().mem == old(Memory())
        invariant !broken ==> dst + End().out == PeekMany(old(Memory()), addr % ADDR_SPAN, n)
      {
        var w;
        ok, w := Get(timeout);
        if !ok { return; }
        dst := dst + [w];
        i := i + 1;
      }
    }

    /** linkf_write_burst. */
    method WriteBurst(addr: nat, src: seq<word>) returns (ok: bool)
      requires Settled() && |src| < WORD
      modifies this
      ensures Settled() && broken == (old(broken) || !ok)
      ensures !broken ==> Memory() == PokeMany(old(Memory()), addr % ADDR_SPAN, src)
    {
      hide Drain, PokeMany;
      ServedWriteBurst(Memory(), addr, |src|);
      ok := Put(Request(OP_WRITE_BURST, addr));
      if !ok { return; }
      ok := Put(|src|);
      if !ok { return; }
      var i := 0;
      ghost var a: nat := addr % ADDR_SPAN;
      while i < |src|
        invariant 0 <= i <= |src| && ok && Live() && broken == old(broken)
        invariant !broken ==> End().ctrl == if i == |src| then Boundary else Receiving(a, |src| - i)
        invariant !broken ==> End().out == []
        invariant !broken ==> PokeMany(End().mem, a, src[i..]) == PokeMany(old(Memory()), addr % ADDR_SPAN, src)
      {
        PokeFirst(End().mem, a, src[i..]);
        ServedReceive(End().mem, a, |src| - i, src[i]);
        ok := Put(src[i]);
        if !ok { return; }
        a := (a + 1) % WORD;
        i := i + 1;
      }
      PokeNone(End().mem, a, src[i..]);
    }
  }

  lemma Opcode(op: nat, addr: nat)
    requires op < 16
    ensures Request(op, addr) / ADDR_SPAN == op && Request(op, addr) % ADDR_SPAN == addr % ADDR_SPAN
  {
    DivModUnique(op * ADDR_SPAN + addr % ADDR_SPAN, ADDR_SPAN, op, addr % ADDR_SPAN);
  }

  lemma DrainOne(r: Served, w: word)
    requires !r.ctrl.Sending?
    ensures var t := Take(r.ctrl, r.mem, w); After(r, w) == Before(r.out, Before(t.out, Flush(t.ctrl, t.mem)))
  {
    hide Take, Flush, PeekMany;
    assert [w][1..] == [];
    DrainNone(Take(r.ctrl, r.mem, w));
    TakeDrains(r.ctrl, r.mem, [w]);
  }

  lemma DrainNone(t: Served)
    ensures Drain(t.ctrl, t.mem, []) == Flush(t.ctrl, t.mem)
  {
    hide Flush, Take;
  }

  function At(mem: seq<word>): (r: Served) { Served(Boundary, mem, []) }

  lemma ServedRead(mem: seq<word>, addr: nat)
    ensures After(At(mem), Request(OP_READ32, addr)) == Served(Boundary, mem, [Peek(mem, addr % ADDR_SPAN)])
  {
    hide Drain, Peek, Request;
    Opcode(OP_READ32, addr);
    DrainOne(At(mem), Request(OP_READ32, addr));
  }

  lemma ServedPing(mem: seq<word>)
    ensures After(At(mem), Request(OP_PING, 0)) == Served(Boundary, mem, [PING_MAGIC])
  {
    hide Drain, Request;
    Opcode(OP_PING, 0);
    DrainOne(At(mem), Request(OP_PING, 0));
  }

  lemma ServedWrite(mem: seq<word>, addr: nat, v: word)
    ensures After(After(At(mem), Request(OP_WRITE32, addr)), v) == At(Poke(mem, addr % ADDR_SPAN, v))
    ensures !After(At(mem), Request(OP_WRITE32, addr)).ctrl.Sending?
  {
    hide Drain, Poke, Request;
    Opcode(OP_WRITE32, addr);
    DrainOne(At(mem), Request(OP_WRITE32, addr));
    DrainOne(After(At(mem), Request(OP_WRITE32, addr)), v);
  }

  lemma ServedReadBurst(mem: seq<word>, addr: nat, n: word)
    ensures After(After(At(mem), Request(OP_READ_BURST, addr)), n) ==
              Served(Boundary, mem, PeekMany(mem, addr % ADDR_SPAN, n))
  {
    hide Drain, Request, Peek;
    Opcode(OP_READ_BURST, addr);
    DrainOne(At(mem), Request(OP_READ_BURST, addr));
    DrainOne(After(At(mem), Request(OP_READ_BURST, addr)), n);
  }

  lemma ServedWriteBurst(mem: seq<word>, addr: nat, n: word)
    ensures After(After(At(mem), Request(OP_WRITE_BURST, addr)), n)
            == Served(if n == 0 then Boundary else Receiving(addr % ADDR_SPAN, n), mem, [])
  {
    hide Drain, Request;
    Opcode(OP_WRITE_BURST, addr);
    DrainOne(At(mem), Request(OP_WRITE_BURST, addr));
    DrainOne(After(At(mem), Request(OP_WRITE_BURST, addr)), n);
  }

  lemma ServedReceive(mem: seq<word>, a: nat, left: nat, w: word)
    requires left > 0
    ensures After(Served(Receiving(a, left), mem, []), w)
            == Served(if left == 1 then Boundary else Receiving((a + 1) % WORD, left - 1), Poke(mem, a, w), [])
  {
    hide Drain, Poke;
    DrainOne(Served(Receiving(a, left), mem, []), w);
  }

  lemma PokeFirst(mem: seq<word>, a: nat, vs: seq<word>)
    requires vs != []
    ensures PokeMany(mem, a, vs) == PokeMany(Poke(mem, a, vs[0]), (a + 1) % WORD, vs[1..])
  {
    hide Poke;
  }

  lemma PokeNone(mem: seq<word>, a: nat, vs: seq<word>)
    requires vs == []
    ensures PokeMany(mem, a, vs) == mem
  {
  }

  lemma JoinOuts(a: seq<word>, b: seq<word>, r: Served)
    ensures Before(a, Before(b, r)) == Before(a + b, r)
  {
    assert (a + b) + r.out == a + (b + r.out);
  }

  lemma TakeLeft(c: Ctrl, mem: seq<word>, w: word)
    requires !c.Sending?
    ensures var r := Take(c, mem, w); r.ctrl.Sending? ==> r.ctrl.left > 0
  {
  }
}
