/**
 Native block transfers to and from guest memory, one contiguous span at a time:
 read, write, fill and move.
 */
module GuestBlocks {
  import opened GuestMemory
  import opened PageTable
  import opened Paging
  import opened FifoMoves
  import opened WordMove
  import opened Arith

  predicate PlainRam(a: nat, len: nat) {
    a + len <= SPACE && forall i :: a <= i < a + len ==> !VgaWindow(i)
  }

  /** guest_read_block. */
  method ReadBlock(r: GuestRam, src: nat, out: array<byte>, len: nat)
    requires r.Valid() && out !in r.Repr() && PlainRam(src, len) && len <= out.Length
    modifies r.Repr(), out
    ensures r.Valid() && Agree(r.mem, old(r.mem), r.lost) && Grows(old(r.Harms()), r.Harms(), PagesOf(src, len))
    ensures forall i :: 0 <= i < len && (src + i) / PAGE_SIZE !in r.lost ==> out[i] == old(r.mem)[src + i]
    ensures r.NeverFails() ==> out[..len] == old(r.mem)[src..src + len]
    ensures forall i :: len <= i < out.Length ==> out[i] == old(out[i])
  {
    hide Coherent, Agree, MapFifo, Shape, Grows, PagesOf;
    ghost var m0, h0 := r.mem, r.Harms();
    GrowsNot(h0, PagesOf(src, len));
    AgreeRefl(m0, r.lost);
    var done := 0;
    while done < len
      invariant done <= len && r.Valid() && |m0| == SPACE
      invariant Agree(r.mem, m0, r.lost) && Grows(h0, r.Harms(), PagesOf(src, len))
      invariant forall i :: 0 <= i < done && (src + i) / PAGE_SIZE !in r.lost ==> out[i] == m0[src + i]
      invariant forall i :: len <= i < out.Length ==> out[i] == old(out[i])
    {
      var n := ReadSpan(r, src, out, len, done, m0, h0);
      done := done + n;
    }
  }

  method ReadSpan(r: GuestRam, src: nat, out: array<byte>, len: nat, done: nat, ghost m0: seq<byte>, ghost h0: Harm)
    returns (n: nat)
    requires r.Valid() && out !in r.Repr() && src + len <= SPACE && done < len <= out.Length
    requires |m0| == SPACE && Agree(r.mem, m0, r.lost) && Grows(h0, r.Harms(), PagesOf(src, len))
    modifies r.Repr(), out
    ensures r.Valid() && Agree(r.mem, m0, r.lost) && old(r.lost) <= r.lost && Grows(h0, r.Harms(), PagesOf(src, len))
    ensures 0 < n <= len - done
    ensures forall i :: 0 <= i < out.Length && !(done <= i < done + n) ==> out[i] == old(out[i])
    ensures forall i :: done <= i < done + n && (src + i) / PAGE_SIZE !in r.lost ==> out[i] == m0[src + i]
  {
    hide Coherent, Agree, MapFifo, Shape, Grows, PagesOf, Absent;
    ghost var m1, l1, h1 := r.mem, r.lost, r.Harms();
    var p, span := r.PagePtr(src + done, false);
    OnePage(src, len, done);
    GrowsTrans(h0, h1, r.Harms(), PagesOf(src, len), {(src + done) / PAGE_SIZE}, PagesOf(src, len));
    AgreeTrans(r.mem, m1, m0, l1, r.lost);
    n := if len - done < span then len - done else span;
    r.PointedBytes(p, src + done, n);
    SoundSpan(r.mem, m0, r.lost, src + done, n);
    ghost var bytes := r.ramPages[p..p + n];
    forall i | 0 <= i < n { out[done + i] := r.ramPages[p + i]; }
    assert forall i :: done <= i < done + n ==> out[i] == bytes[i - done];
    if (src + done) / PAGE_SIZE !in r.lost {
      forall i | done <= i < done + n ensures out[i] == m0[src + i] {
        assert m0[src + done..src + done + n][i - done] == m0[src + i];
      }
    }
  }

  lemma SoundSpan(m: seq<byte>, was: seq<byte>, lost: set<nat>, a: nat, n: nat)
    requires |m| == |was| == SPACE && Agree(m, was, lost) && a < SPACE && a % PAGE_SIZE + n <= PAGE_SIZE
    ensures a + n <= SPACE
    ensures forall i :: a <= i < a + n ==> i / PAGE_SIZE == a / PAGE_SIZE
    ensures a / PAGE_SIZE !in lost ==> m[a..a + n] == was[a..a + n]
  {
    SliceOfPage(m, a, n);
    SliceOfPage(was, a, n);
  }

  /** guest_write_block. */
  method WriteBlock(r: GuestRam, dst: nat, src: array<byte>, len: nat)
    requires r.Valid() && src !in r.Repr() && PlainRam(dst, len) && len <= src.Length
    modifies r.Repr()
    ensures r.Valid() && Grows(old(r.Harms()), r.Harms(), PagesOf(dst, len))
    ensures Agree(r.mem, Splice(old(r.mem), dst, src[..len]), r.lost)
    ensures r.NeverFails() ==> r.mem == Splice(old(r.mem), dst, src[..len])
  {
    hide Coherent, Agree, MapFifo, Shape, Splice, Grows, PagesOf, Absent;
    ghost var m0, h0 := r.mem, r.Harms();
    GrowsNot(h0, PagesOf(dst, len));
    AgreeRefl(m0, r.lost);
    ghost var data := src[..len];
    SpliceNothing(m0, dst, data[..0]);
    var done := 0;
    while done < len
      invariant done <= len && r.Valid() && |m0| == SPACE && src[..len] == data
      invariant Agree(r.mem, Splice(m0, dst, data[..done]), r.lost) && Grows(h0, r.Harms(), PagesOf(dst, len))
    {
      ghost var m1, l1, h1 := r.mem, r.lost, r.Harms();
      var p, span := r.PagePtr(dst + done, true);
      OnePage(dst, len, done);
      GrowsTrans(h0, h1, r.Harms(), PagesOf(dst, len), {(dst + done) / PAGE_SIZE}, PagesOf(dst, len));
      ghost var m := Splice(m0, dst, data[..done]);
      AgreeTrans(r.mem, m1, m, l1, r.lost);
      var n := if len - done < span then len - done else span;
      var chunk := src[done..done + n];
      assert forall k :: 0 <= k < n ==> chunk[k] == data[done + k];
      assert chunk == data[done..done + n];
      AgreeSplice(r.mem, m, r.lost, dst + done, chunk);
      SpliceGrows(m0, dst, data, done, n);
      r.PokeRange(p, dst + done, chunk);
      done := done + n;
    }
    assert data[..len] == data;
    if r.NeverFails() { AgreeExact(r.mem, Splice(m0, dst, src[..len])); }
  }

  lemma SpliceGrows(m: seq<byte>, a: nat, bs: seq<byte>, k: nat, n: nat)
    requires a + |bs| <= |m| && k + n <= |bs|
    ensures Splice(Splice(m, a, bs[..k]), a + k, bs[k..k + n]) == Splice(m, a, bs[..k + n])
  {
  }

  /** guest_fill_block. */
  method FillBlock(r: GuestRam, dst: nat, v: byte, len: nat)
    requires r.Valid() && PlainRam(dst, len)
    modifies r.Repr()
    ensures r.Valid() && Grows(old(r.Harms()), r.Harms(), PagesOf(dst, len))
    ensures Agree(r.mem, Splice(old(r.mem), dst, Repeated(v, len)), r.lost)
    ensures r.NeverFails() ==> r.mem == Splice(old(r.mem), dst, Repeated(v, len))
  {
    hide Coherent, Agree, MapFifo, Shape, Splice, Grows, PagesOf, Absent;
    ghost var m0, h0 := r.mem, r.Harms();
    GrowsNot(h0, PagesOf(dst, len));
    AgreeRefl(m0, r.lost);
    SpliceNothing(m0, dst, Repeated(v, 0));
    var done := 0;
    while done < len
      invariant done <= len && r.Valid() && |m0| == SPACE
      invariant Agree(r.mem, Splice(m0, dst, Repeated(v, done)), r.lost) && Grows(h0, r.Harms(), PagesOf(dst, len))
    {
      ghost var m1, l1, h1 := r.mem, r.lost, r.Harms();
      var p, span := r.PagePtr(dst + done, true);
      OnePage(dst, len, done);
      GrowsTrans(h0, h1, r.Harms(), PagesOf(dst, len), {(dst + done) / PAGE_SIZE}, PagesOf(dst, len));
      ghost var m := Splice(m0, dst, Repeated(v, done));
      AgreeTrans(r.mem, m1, m, l1, r.lost);
      var n := if len - done < span then len - done else span;
      AgreeSplice(r.mem, m, r.lost, dst + done, Repeated(v, n));
      RepeatedGrows(m0, dst, v, done, n);
      r.PokeRange(p, dst + done, Repeated(v, n));
      done := done + n;
    }
    if r.NeverFails() { AgreeExact(r.mem, Splice(m0, dst, Repeated(v, len))); }
  }

  /**
   One round of the span loop of guest_move_block: both pages are mapped and then
   the bytes are copied.  If mapping the destination took the source's slot, the
   source pointer is stale and reads from the destination's own page.
   */
  method MoveChunk(r: GuestRam, dst: nat, src: nat, len: nat) returns (n: nat, ghost mid: seq<byte>)
    requires r.Valid() && len > 0 && dst + len <= SPACE && src + len <= SPACE
    modifies r.Repr()
    ensures r.Valid() && n == Chunk(dst, src, len)
    ensures Grows(old(r.Harms()), r.Harms(), {src / PAGE_SIZE, dst / PAGE_SIZE})
    ensures |mid| == SPACE && Agree(mid, old(r.mem), r.lost)
    ensures (r.cachePage[..], r.victim) == old(Mapped2(r.cachePage[..], r.victim, dst, src))
    ensures old(ActualSource(r.cachePage[..], r.victim, dst, src)) + n <= SPACE
    ensures r.mem == ForwardCopy(mid, dst, old(ActualSource(r.cachePage[..], r.victim, dst, src)), n)
    ensures r.NeverFails() ==> mid == old(r.mem)
  {
    hide Mapped, Unmapped, Clean, ForwardCopy, MapFifo, Agree, Grows, Absent;
    ghost var tab0, v0, m0, h0 := r.cachePage[..], r.victim, r.mem, r.Harms();
    var s, srcSpan := r.PagePtr(src, false);
    ghost var tab1, m1, l1, h1 := r.cachePage[..], r.mem, r.lost, r.Harms();
    var d, dstSpan := r.PagePtr(dst, true);
    GrowsTrans(h0, h1, r.Harms(), {src / PAGE_SIZE}, {dst / PAGE_SIZE}, {src / PAGE_SIZE, dst / PAGE_SIZE});
    AgreeTrans(r.mem, m1, m0, l1, r.lost);
    mid := r.mem;
    n := len;
    if n > srcSpan { n := srcSpan; }
    if n > dstSpan { n := dstSpan; }
    ghost var a := ActualSource(tab0, v0, dst, src);
    SourceInSpace(tab0, v0, dst, src, n);
    StalePage(tab1, MapFifo(tab0, v0, src / PAGE_SIZE).1, s / PAGE_SIZE, src / PAGE_SIZE, dst / PAGE_SIZE);
    assert r.PointsAt(s, a);
    if r.NeverFails() { AgreeExact(r.mem, m0); }
    r.CopyRange(d, dst, s, a, n);
  }

  /** What the slot of a page mapped just before holds after mapping another page. */
  lemma StalePage(tab: seq<nat>, victim: nat, s: nat, page: nat, other: nat)
    requires victim < |tab| && s < |tab| && Distinct(tab) && tab[s] == page && page != INVALID_PAGE
    ensures var t := MapFifo(tab, victim, other).0;
            t[s] == if Absent(t, page) then other else page
  {
    var t := MapFifo(tab, victim, other).0;
    if !Absent(t, page) && t[s] != page {
      var i :| 0 <= i < |t| && t[i] == page;
    }
  }

  /** The pages a move may touch. */
  function MovePages(dst: nat, src: nat, len: nat): (pages: set<nat>) { PagesOf(dst, len) + PagesOf(src, len) }

  /**
   guest_move_block.  Overlapping blocks go byte by byte and are always right.
   Disjoint blocks go span by span with the result MoveResult gives, and by
   FifoMoves.MoveCorrectIff that is the snapshot copy for every content exactly
   when MoveSafe.  Whatever transfers fail, a byte is wrong only if its own page or
   that of the byte it comes from is lost.
   */
  method MoveBlock(r: GuestRam, dst: nat, src: nat, len: nat)
    requires r.Valid() && PlainRam(dst, len) && PlainRam(src, len)
    modifies r.Repr()
    ensures r.Valid() && Grows(old(r.Harms()), r.Harms(), MovePages(dst, src, len))
    ensures Carried(r.mem, old(r.mem), old(MoveOrigins(r.cachePage[..], r.victim, dst, src, len)), r.lost)
    ensures r.NeverFails() && !Apart(dst, src, len) ==>
              r.mem == Splice(old(r.mem), dst, old(r.mem)[src..src + len])
    ensures r.NeverFails() && Apart(dst, src, len) ==>
              r.mem == old(MoveResult(r.cachePage[..], r.victim, r.mem, dst, src, len))
    ensures r.NeverFails() && Apart(dst, src, len) && old(MoveSafe(r.cachePage[..], r.victim, dst, src, len)) ==>
              r.mem == Splice(old(r.mem), dst, old(r.mem)[src..src + len])
  {
    hide Coherent, ForwardCopy, MapFifo, MoveResult, MoveSafe, Agree, Grows, Carried, MovePages;
    ghost var m0 := r.mem;
    if dst == src || len == 0 {
      assert Splice(m0, dst, m0[src..src + len]) == m0;
      GrowsNot(r.Harms(), MovePages(dst, src, len));
      CarriedStart(m0, r.lost);
      if len == 0 {
        NothingToMove(r.cachePage[..], r.victim, m0, dst, src);
        NothingToMove(r.cachePage[..], r.victim, Addresses(), dst, src);
      }
      assert Splice(Addresses(), dst, Addresses()[src..src + len]) == Addresses();
      return;
    }
    if dst > src && dst - src < len {
      MoveDown(r, dst, src, len);
      return;
    }
    if src > dst && src - dst < len {
      MoveUp(r, dst, src, len);
      return;
    }
    MoveSpans(r, dst, src, len);
    if MoveSafe(old(r.cachePage[..]), old(r.victim), dst, src, len) {
      SafeMoveIsSnapshot(old(r.cachePage[..]), old(r.victim), m0, dst, src, len);
    }
  }

  method MoveSpans(r: GuestRam, dst: nat, src: nat, len: nat)
    requires r.Valid() && dst + len <= SPACE && src + len <= SPACE && Apart(dst, src, len)
    modifies r.Repr()
    ensures r.Valid() && Grows(old(r.Harms()), r.Harms(), MovePages(dst, src, len))
    ensures Carried(r.mem, old(r.mem), old(MoveResult(r.cachePage[..], r.victim, Addresses(), dst, src, len)), r.lost)
    ensures r.NeverFails() ==> r.mem == old(MoveResult(r.cachePage[..], r.victim, r.mem, dst, src, len))
  {
    hide Coherent, ForwardCopy, MapFifo, Mapped2, ActualSource, Chunk, Shape;
    hide MoveResult, Carried, Grows, Agree, MovePages;
    ghost var m0, h0, pages := r.mem, r.Harms(), MovePages(dst, src, len);
    ghost var goal := MoveResult(r.cachePage[..], r.victim, r.mem, dst, src, len);
    ghost var origins := MoveResult(r.cachePage[..], r.victim, Addresses(), dst, src, len);
    ghost var from := Addresses();
    CarriedStart(m0, r.lost);
    GrowsNot(h0, pages);
    var d: nat, s: nat, left: nat := dst, src, len;
    while left > 0
      invariant left <= len && d == dst + (len - left) && s == src + (len - left) && r.Valid()
      invariant Grows(h0, r.Harms(), pages) && |from| == SPACE && Carried(r.mem, m0, from, r.lost)
      invariant Untouched(from, s, left)
      invariant MoveResult(r.cachePage[..], r.victim, from, d, s, left) == origins
      invariant r.NeverFails() ==> MoveResult(r.cachePage[..], r.victim, r.mem, d, s, left) == goal
    {
      ghost var tab, victim := r.cachePage[..], r.victim;
      OneSpan(tab, victim, from, d, s, left);
      OneSpan(tab, victim, r.mem, d, s, left);
      ghost var now, l, h := r.mem, r.lost, r.Harms();
      var n, mid := MoveChunk(r, d, s, left);
      ghost var a := ActualSource(tab, victim, d, s);
      MovePageIn(dst, src, len, len - left);
      GrowsTrans(h0, h, r.Harms(), pages, {s / PAGE_SIZE, d / PAGE_SIZE}, pages);
      CarriedAgree(now, mid, m0, from, l, r.lost);
      SpanCarries(tab, victim, mid, m0, from, r.lost, d, s, left);
      from := ForwardCopy(from, d, a, n);
      s, d, left := s + n, d + n, left - n;
    }
    NothingToMove(r.cachePage[..], r.victim, from, d, s);
    NothingToMove(r.cachePage[..], r.victim, r.mem, d, s);
  }

  lemma MovePageIn(dst: nat, src: nat, len: nat, k: nat)
    requires k < len && dst + len <= SPACE && src + len <= SPACE
    ensures {(src + k) / PAGE_SIZE, (dst + k) / PAGE_SIZE} <= MovePages(dst, src, len)
  {
    OnePage(dst, len, k);
    OnePage(src, len, k);
  }

  /** One span carries bytes from an untouched source, or within the destination's page. */
  lemma SpanCarries(tab: seq<nat>, victim: nat, mid: seq<byte>, was: seq<byte>, from: seq<nat>, lost: set<nat>,
                    d: nat, s: nat, left: nat)
    requires victim < |tab| && left > 0 && d + left <= SPACE && s + left <= SPACE && Apart(d, s, left)
    requires Carried(mid, was, from, lost) && |from| == SPACE && Untouched(from, s, left)
    ensures var n, a := Chunk(d, s, left), ActualSource(tab, victim, d, s);
            && a + n <= SPACE
            && Carried(ForwardCopy(mid, d, a, n), was, ForwardCopy(from, d, a, n), lost)
            && Untouched(ForwardCopy(from, d, a, n), s + n, left - n)
  {
    hide Carried, ForwardCopy, SourceKept, Chunk;
    CarriedSize(mid, was, from, lost);
    var n, a := Chunk(d, s, left), ActualSource(tab, victim, d, s);
    SourceInSpace(tab, victim, d, s, n);
    DivModUnique(d / PAGE_SIZE * PAGE_SIZE + s % PAGE_SIZE, PAGE_SIZE, d / PAGE_SIZE, s % PAGE_SIZE);
    CarriedChunk(mid, was, from, lost, d, a, n);
    forall x | s + n <= x < s + left ensures ForwardCopy(from, d, a, n)[x] == x {
      ForwardCopyFrame(from, d, a, n, x);
    }
  }

  lemma DownByte(from: seq<nat>, dst: nat, src: nat, len: nat, k: nat)
    requires k < len && dst + len <= SPACE && src < dst
    requires from == Splice(Addresses(), dst + k + 1, Addresses()[src + k + 1..src + len])
    ensures from[src + k] == src + k
    ensures from[dst + k := src + k] == Splice(Addresses(), dst + k, Addresses()[src + k..src + len])
  {
  }

  lemma UpByte(from: seq<nat>, dst: nat, src: nat, k: nat)
    requires src + k < SPACE && dst < src && from == Splice(Addresses(), dst, Addresses()[src..src + k])
    ensures from[src + k] == src + k
    ensures from[dst + k := src + k] == Splice(Addresses(), dst, Addresses()[src..src + k + 1])
  {
  }

  method MoveDown(r: GuestRam, dst: nat, src: nat, len: nat)
    requires r.Valid() && dst + len <= SPACE && src < dst
    modifies r.Repr()
    ensures r.Valid() && Grows(old(r.Harms()), r.Harms(), MovePages(dst, src, len))
    ensures Carried(r.mem, old(r.mem), Splice(Addresses(), dst, Addresses()[src..src + len]), r.lost)
    ensures r.NeverFails() ==> r.mem == Splice(old(r.mem), dst, old(r.mem)[src..src + len])
  {
    hide Coherent, Agree, Shape, Page, Splice, Grows, Carried, MovePages;
    ghost var m0, h0, from := r.mem, r.Harms(), Addresses();
    CarriedStart(m0, r.lost);
    GrowsNot(h0, MovePages(dst, src, len));
    SpliceNothing(Addresses(), dst + len, Addresses()[src + len..src + len]);
    var left := len;
    while left > 0
      invariant 0 <= left <= len && r.Valid()
      invariant from == Splice(Addresses(), dst + left, Addresses()[src + left..src + len])
      invariant Carried(r.mem, m0, from, r.lost) && Grows(h0, r.Harms(), MovePages(dst, src, len))
    {
      left := left - 1;
      DownByte(from, dst, src, len, left);
      MovePageIn(dst, src, len, left);
      CopyByte(r, dst + left, src + left, m0, from, h0, MovePages(dst, src, len));
      from := from[dst + left := src + left];
    }
    if r.NeverFails() { CarriedExact(r.mem, m0, dst, src, len); }
  }

  method MoveUp(r: GuestRam, dst: nat, src: nat, len: nat)
    requires r.Valid() && src + len <= SPACE && dst < src
    modifies r.Repr()
    ensures r.Valid() && Grows(old(r.Harms()), r.Harms(), MovePages(dst, src, len))
    ensures Carried(r.mem, old(r.mem), Splice(Addresses(), dst, Addresses()[src..src + len]), r.lost)
    ensures r.NeverFails() ==> r.mem == Splice(old(r.mem), dst, old(r.mem)[src..src + len])
  {
    hide Coherent, Agree, Shape, Page, Splice, Grows, Carried, MovePages;
    ghost var m0, h0, from := r.mem, r.Harms(), Addresses();
    CarriedStart(m0, r.lost);
    GrowsNot(h0, MovePages(dst, src, len));
    SpliceNothing(Addresses(), dst, Addresses()[src..src]);
    var done := 0;
    while done < len
      invariant 0 <= done <= len && r.Valid()
      invariant from == Splice(Addresses(), dst, Addresses()[src..src + done])
      invariant Carried(r.mem, m0, from, r.lost) && Grows(h0, r.Harms(), MovePages(dst, src, len))
    {
      UpByte(from, dst, src, done);
      MovePageIn(dst, src, len, done);
      CopyByte(r, dst + done, src + done, m0, from, h0, MovePages(dst, src, len));
      from := from[dst + done := src + done];
      done := done + 1;
    }
    if r.NeverFails() { CarriedExact(r.mem, m0, dst, src, len); }
  }

  /** pstore8(dst, pload8(src)), in the middle of a move whose bytes so far come from `from`. */
  method CopyByte(r: GuestRam, dst: nat, src: nat, ghost was: seq<byte>, ghost from: seq<nat>,
                  ghost h: Harm, ghost pages: set<nat>)
    requires r.Valid() && dst < SPACE && src < SPACE && Carried(r.mem, was, from, r.lost) && from[src] == src
    requires Grows(h, r.Harms(), pages) && {src / PAGE_SIZE, dst / PAGE_SIZE} <= pages
    modifies r.Repr()
    ensures r.Valid() && Grows(h, r.Harms(), pages)
    ensures Carried(r.mem, was, from[dst := src], r.lost)
  {
    hide Coherent, Agree, Shape, Page, Grows, Carried, Absent;
    ghost var m0, l0, h0 := r.mem, r.lost, r.Harms();
    CarriedSize(m0, was, from, l0);
    var b := r.Load8(src);
    ghost var m1, l1, h1 := r.mem, r.lost, r.Harms();
    GrowsTrans(h, h0, h1, pages, {src / PAGE_SIZE}, pages);
    CarriedAgree(m0, m1, was, from, l0, l1);
    CarriedByte(m1, was, from, l1, dst, src);
    r.Store8(dst, b);
    GrowsTrans(h, h1, r.Harms(), pages, {dst / PAGE_SIZE}, pages);
    CarriedAgree(m1[dst := b], r.mem, was, from[dst := src], l1, r.lost);
  }
}
