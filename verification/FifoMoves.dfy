/**
 How long a page stays in the FIFO cache, and what that means for a block move
 that holds a pointer to its source page while it maps its destination page.
 */
module FifoMoves {
  import opened GuestMemory
  import opened PageTable
  import opened Paging
  import opened WordMove
  import opened Arith

  // ----- FIFO residency -----

  function MapAll(tab: seq<nat>, victim: nat, pages: seq<nat>): (r: (seq<nat>, nat))
    requires victim < |tab|
    ensures |r.0| == |tab| && r.1 < |tab|
    decreases |pages|
  {
    if pages == [] then (tab, victim)
    else
      var (t, v) := MapFifo(tab, victim, pages[0]);
      MapAll(t, v, pages[1..])
  }

  function Misses(tab: seq<nat>, victim: nat, pages: seq<nat>): (n: nat)
    requires victim < |tab|
    decreases |pages|
  {
    if pages == [] then 0
    else
      var (t, v) := MapFifo(tab, victim, pages[0]);
      (if Absent(tab, pages[0]) then 1 else 0) + Misses(t, v, pages[1..])
  }

  /** How many misses slot `s` outlives. */
  function Lifetime(n: nat, victim: nat, s: nat): (d: nat)
    requires victim < n && s < n
    ensures d < n
  {
    if victim <= s then s - victim else s + n - victim
  }

  lemma MapFifoDistinct(tab: seq<nat>, victim: nat, page: nat)
    requires victim < |tab| && Distinct(tab)
    ensures Distinct(MapFifo(tab, victim, page).0)
  {
  }

  /**
   FIFO, exactly: a page in slot `s` that is not asked for again survives the
   mapping of `pages` if and only if those cause at most Lifetime misses.  Hits
   in between make no difference.
   */
  lemma {:induction false} FifoResidency(tab: seq<nat>, victim: nat, s: nat, pages: seq<nat>)
    requires victim < |tab| && s < |tab| && Distinct(tab) && tab[s] != INVALID_PAGE && tab[s] !in pages
    ensures !Absent(MapAll(tab, victim, pages).0, tab[s])
       <==> Misses(tab, victim, pages) <= Lifetime(|tab|, victim, s)
    decreases |pages|
  {
    if pages == [] {
      assert !Absent(tab, tab[s]);
    } else {
      var (t, v) := MapFifo(tab, victim, pages[0]);
      MapFifoDistinct(tab, victim, pages[0]);
      if Absent(tab, pages[0]) && s == victim {
        StaysAbsent(t, v, tab[s], pages[1..]);
      } else {
        assert t[s] == tab[s];
        FifoResidency(t, v, s, pages[1..]);
      }
    }
  }

  lemma {:induction false} StaysAbsent(tab: seq<nat>, victim: nat, page: nat, pages: seq<nat>)
    requires victim < |tab| && Absent(tab, page) && page !in pages
    ensures Absent(MapAll(tab, victim, pages).0, page)
    decreases |pages|
  {
    if pages != [] {
      var (t, v) := MapFifo(tab, victim, pages[0]);
      assert pages[0] in pages;
      StaysAbsent(t, v, page, pages[1..]);
    }
  }

  // ----- The non-overlapping branch of a block move -----

  /** Is the page of the source pointer still there once the destination has been mapped? */
  predicate SourceKept(tab: seq<nat>, victim: nat, srcPage: nat, dstPage: nat)
    requires victim < |tab|
  {
    var (t1, v1) := MapFifo(tab, victim, srcPage);
    var (t2, _) := MapFifo(t1, v1, dstPage);
    !Absent(t2, srcPage)
  }

  /**
   With two slots or more it is lost exactly when the source page was already
   resident, in the slot due for replacement, and the destination page was not.
   */
  lemma SourceKeptIff(tab: seq<nat>, victim: nat, srcPage: nat, dstPage: nat)
    requires 2 <= |tab| && victim < |tab| && Distinct(tab) && srcPage < PAGE_COUNT && dstPage < PAGE_COUNT
    ensures SourceKept(tab, victim, srcPage, dstPage)
       <==> !(tab[victim] == srcPage && srcPage != dstPage && Absent(tab, dstPage))
  {
    var (t1, v1) := MapFifo(tab, victim, srcPage);
    var (t2, _) := MapFifo(t1, v1, dstPage);
    if Absent(tab, srcPage) {
      assert t1[victim] == srcPage && v1 != victim && t2[victim] == srcPage;
      assert tab[victim] != srcPage;
    } else {
      var s :| 0 <= s < |tab| && tab[s] == srcPage;
      if s == victim && srcPage != dstPage && Absent(tab, dstPage) {
        assert forall i :: 0 <= i < |t2| ==> t2[i] != srcPage;
      } else {
        assert t2[s] == srcPage || (s == victim && Absent(tab, dstPage));
        if s != victim { assert tab[victim] != srcPage; }
      }
    }
  }

  /** The pages at which a chunk of the move ends. */
  function Chunk(dst: nat, src: nat, len: nat): (n: nat)
    requires len > 0
    ensures 0 < n <= len
    ensures src % PAGE_SIZE + n <= PAGE_SIZE && dst % PAGE_SIZE + n <= PAGE_SIZE
  {
    var a := PAGE_SIZE - src % PAGE_SIZE;
    var b := PAGE_SIZE - dst % PAGE_SIZE;
    var n := if len > a then a else len;
    if n > b then b else n
  }

  /** Where the source pointer reads from once both pages have been mapped. */
  function ActualSource(tab: seq<nat>, victim: nat, dst: nat, src: nat): (a: nat)
    requires victim < |tab|
    ensures a % PAGE_SIZE == src % PAGE_SIZE
  {
    if SourceKept(tab, victim, src / PAGE_SIZE, dst / PAGE_SIZE) then src
    else (dst / PAGE_SIZE) * PAGE_SIZE + src % PAGE_SIZE
  }

  function Mapped2(tab: seq<nat>, victim: nat, dst: nat, src: nat): (r: (seq<nat>, nat))
    requires victim < |tab|
    ensures |r.0| == |tab| && r.1 < |tab|
  {
    var (t1, v1) := MapFifo(tab, victim, src / PAGE_SIZE);
    MapFifo(t1, v1, dst / PAGE_SIZE)
  }

  lemma SourceInSpace(tab: seq<nat>, victim: nat, dst: nat, src: nat, n: nat)
    requires victim < |tab| && dst < SPACE && src < SPACE
    requires src % PAGE_SIZE + n <= PAGE_SIZE && dst % PAGE_SIZE + n <= PAGE_SIZE
    ensures dst + n <= SPACE && src + n <= SPACE && ActualSource(tab, victim, dst, src) + n <= SPACE
  {
  }

  /** Exactly what the loop does to the flat memory, stale pointers included. */
  function MoveResult<T>(tab: seq<nat>, victim: nat, m: seq<T>, dst: nat, src: nat, len: nat): (r: seq<T>)
    requires victim < |tab| && |m| == SPACE && dst + len <= SPACE && src + len <= SPACE
    ensures |r| == SPACE
    decreases len
  {
    if len == 0 then m
    else
      var n := Chunk(dst, src, len);
      SourceInSpace(tab, victim, dst, src, n);
      var (t, v) := Mapped2(tab, victim, dst, src);
      MoveResult(t, v, ForwardCopy(m, dst, ActualSource(tab, victim, dst, src), n), dst + n, src + n, len - n)
  }

  lemma NothingToMove<T>(tab: seq<nat>, victim: nat, m: seq<T>, dst: nat, src: nat)
    requires victim < |tab| && |m| == SPACE && dst <= SPACE && src <= SPACE
    ensures MoveResult(tab, victim, m, dst, src, 0) == m
  {
  }

  /** What the span loop still has to do, as MoveResult has it. */
  lemma OneSpan<T>(tab: seq<nat>, victim: nat, m: seq<T>, dst: nat, src: nat, len: nat)
    requires victim < |tab| && |m| == SPACE && dst + len <= SPACE && src + len <= SPACE && len > 0
    ensures var n := Chunk(dst, src, len);
            var (t, v) := Mapped2(tab, victim, dst, src);
            var a := ActualSource(tab, victim, dst, src);
            && a + n <= SPACE
            && MoveResult(tab, victim, m, dst, src, len) ==
                 MoveResult(t, v, ForwardCopy(m, dst, a, n), dst + n, src + n, len - n)
  {
    SourceInSpace(tab, victim, dst, src, Chunk(dst, src, len));
  }

  /** Every chunk keeps its source page; a caller can evaluate this on the slot table. */
  predicate MoveSafe(tab: seq<nat>, victim: nat, dst: nat, src: nat, len: nat)
    requires victim < |tab|
    decreases len
  {
    len == 0 ||
    var n := Chunk(dst, src, len);
    var (t, v) := Mapped2(tab, victim, dst, src);
    SourceKept(tab, victim, src / PAGE_SIZE, dst / PAGE_SIZE) && MoveSafe(t, v, dst + n, src + n, len - n)
  }

  predicate Apart(dst: nat, src: nat, len: nat) {
    dst + len <= src || src + len <= dst
  }

  lemma SpliceInTwo<T>(m: seq<T>, dst: nat, src: nat, len: nat, n: nat)
    requires n <= len && dst + len <= |m| && src + len <= |m| && Apart(dst, src, len)
    ensures var m1 := Splice(m, dst, m[src..src + n]);
            Splice(m1, dst + n, m1[src + n..src + len]) == Splice(m, dst, m[src..src + len])
  {
    var m1 := Splice(m, dst, m[src..src + n]);
    assert m1[src + n..src + len] == m[src + n..src + len];
  }

  lemma {:induction false} SafeMoveIsSnapshot<T>(tab: seq<nat>, victim: nat, m: seq<T>, dst: nat, src: nat, len: nat)
    requires victim < |tab| && |m| == SPACE && dst + len <= SPACE && src + len <= SPACE
    requires Apart(dst, src, len) && MoveSafe(tab, victim, dst, src, len)
    ensures MoveResult(tab, victim, m, dst, src, len) == Splice(m, dst, m[src..src + len])
    decreases len
  {
    hide ForwardCopy, Absent, SourceKept, MapFifo, Chunk, Mapped2, MoveResult, MoveSafe, ActualSource, Splice;
    if len == 0 {
      NothingToMove(tab, victim, m, dst, src);
      SpliceNothing(m, dst, m[src..src]);
    } else {
      var n := Chunk(dst, src, len);
      var (t, v) := Mapped2(tab, victim, dst, src);
      OneSpan(tab, victim, m, dst, src, len);
      SafeSpan(tab, victim, dst, src, len);
      ForwardCopyIsSnapshot(m, dst, src, n);
      SafeMoveIsSnapshot(t, v, Splice(m, dst, m[src..src + n]), dst + n, src + n, len - n);
      SpliceInTwo(m, dst, src, len, n);
    }
  }

  lemma SafeSpan(tab: seq<nat>, victim: nat, dst: nat, src: nat, len: nat)
    requires victim < |tab| && len > 0 && MoveSafe(tab, victim, dst, src, len)
    ensures ActualSource(tab, victim, dst, src) == src
    ensures var n := Chunk(dst, src, len);
            var (t, v) := Mapped2(tab, victim, dst, src);
            MoveSafe(t, v, dst + n, src + n, len - n)
  {
    hide SourceKept, Chunk, Mapped2;
  }

  lemma {:induction false} MoveFrame<T>(tab: seq<nat>, victim: nat, m: seq<T>, dst: nat, src: nat, len: nat, i: nat)
    requires victim < |tab| && |m| == SPACE && dst + len <= SPACE && src + len <= SPACE
    requires i < SPACE && !(dst <= i < dst + len)
    ensures MoveResult(tab, victim, m, dst, src, len)[i] == m[i]
    decreases len
  {
    hide ForwardCopy, Absent, SourceKept, MapFifo, Chunk, ActualSource, Mapped2;
    if len > 0 {
      var n := Chunk(dst, src, len);
      var (t, v) := Mapped2(tab, victim, dst, src);
      var a := ActualSource(tab, victim, dst, src);
      SourceInSpace(tab, victim, dst, src, n);
      ForwardCopyFrame(m, dst, a, n, i);
      MoveFrame(t, v, ForwardCopy(m, dst, a, n), dst + n, src + n, len - n, i);
    }
  }

  // ----- Moves while transfers fail: where each byte comes from -----

  /** Every byte comes from its own address. */
  function Addresses(): (from: seq<nat>)
    ensures |from| == SPACE && forall i :: 0 <= i < SPACE ==> from[i] == i
  {
    seq(SPACE, i => i)
  }

  /** Every byte of `now` is the byte of `was` it comes from, unless its own page or that byte's page is lost. */
  ghost predicate Carried(now: seq<byte>, was: seq<byte>, from: seq<nat>, lost: set<nat>) {
    && |now| == |was| == |from| == SPACE
    && forall x :: 0 <= x < SPACE ==>
         from[x] < SPACE && (x / PAGE_SIZE !in lost && from[x] / PAGE_SIZE !in lost ==> now[x] == was[from[x]])
  }

  lemma CarriedStart(m: seq<byte>, lost: set<nat>)
    requires |m| == SPACE
    ensures Carried(m, m, Addresses(), lost)
  {
  }

  /** Losing more pages keeps what is claimed about the others. */
  lemma CarriedAgree(now: seq<byte>, mid: seq<byte>, was: seq<byte>, from: seq<nat>, l: set<nat>, lost: set<nat>)
    requires Carried(now, was, from, l) && |mid| == SPACE && Agree(mid, now, lost) && l <= lost
    ensures Carried(mid, was, from, lost)
  {
    hide Agree;
    forall x | 0 <= x < SPACE && x / PAGE_SIZE !in lost && from[x] / PAGE_SIZE !in lost
      ensures mid[x] == was[from[x]]
    {
      AgreeByte(mid, now, lost, x);
    }
  }

  /** A copied byte comes from where the byte it copies came from. */
  lemma CarriedByte(now: seq<byte>, was: seq<byte>, from: seq<nat>, lost: set<nat>, d: nat, s: nat)
    requires Carried(now, was, from, lost) && d < SPACE && s < SPACE
    requires from[s] == s || s / PAGE_SIZE == d / PAGE_SIZE
    ensures Carried(now[d := now[s]], was, from[d := from[s]], lost)
  {
  }

  ghost predicate Untouched(from: seq<nat>, s: nat, n: nat) {
    s + n <= |from| && forall x :: s <= x < s + n ==> from[x] == x
  }

  /** A chunk copied from an untouched block, or within one page. */
  lemma {:induction false} CarriedChunk(now: seq<byte>, was: seq<byte>, from: seq<nat>, lost: set<nat>,
                                        d: nat, s: nat, n: nat)
    requires Carried(now, was, from, lost) && d + n <= |now| == |from| == SPACE && s + n <= SPACE
    requires d % PAGE_SIZE + n <= PAGE_SIZE && s % PAGE_SIZE + n <= PAGE_SIZE
    requires s / PAGE_SIZE == d / PAGE_SIZE || (Apart(d, s, n) && Untouched(from, s, n))
    ensures Carried(ForwardCopy(now, d, s, n), was, ForwardCopy(from, d, s, n), lost)
    decreases n
  {
    hide Carried, ForwardCopy, Untouched;
    if n == 0 {
      NoCopy(now, d, s);
      NoCopy(from, d, s);
    } else {
      if s / PAGE_SIZE != d / PAGE_SIZE { UntouchedPart(from, s, n); }
      CarriedChunk(now, was, from, lost, d, s, n - 1);
      ByteStep(now, d, s, n - 1);
      ByteStep(from, d, s, n - 1);
      ComesFrom(from, d, s, n - 1);
      CarriedByte(ForwardCopy(now, d, s, n - 1), was, ForwardCopy(from, d, s, n - 1), lost, d + n - 1, s + n - 1);
    }
  }

  lemma UntouchedPart(from: seq<nat>, s: nat, n: nat)
    requires n > 0 && Untouched(from, s, n)
    ensures Untouched(from, s, n - 1)
  {
  }

  /** The next byte of such a chunk. */
  lemma ComesFrom(from: seq<nat>, d: nat, s: nat, k: nat)
    requires d + k < |from| == SPACE && s + k < SPACE && d % PAGE_SIZE + k < PAGE_SIZE && s % PAGE_SIZE + k < PAGE_SIZE
    requires s / PAGE_SIZE == d / PAGE_SIZE || (Apart(d, s, k + 1) && Untouched(from, s, k + 1))
    ensures ForwardCopy(from, d, s, k)[s + k] == s + k || (s + k) / PAGE_SIZE == (d + k) / PAGE_SIZE
  {
    hide ForwardCopy;
    if s / PAGE_SIZE == d / PAGE_SIZE {
      DivModUnique(d + k, PAGE_SIZE, d / PAGE_SIZE, d % PAGE_SIZE + k);
      DivModUnique(s + k, PAGE_SIZE, s / PAGE_SIZE, s % PAGE_SIZE + k);
    } else {
      ForwardCopyFrame(from, d, s, k, s + k);
    }
  }

  lemma CarriedSize(now: seq<byte>, was: seq<byte>, from: seq<nat>, lost: set<nat>)
    requires Carried(now, was, from, lost)
    ensures |now| == |was| == |from| == SPACE
  {
  }

  lemma NoCopy<T>(m: seq<T>, d: nat, s: nat)
    requires d <= |m| && s <= |m|
    ensures ForwardCopy(m, d, s, 0) == m
  {
  }

  /** Where the bytes come from after guest_move_block. */
  function MoveOrigins(tab: seq<nat>, victim: nat, dst: nat, src: nat, len: nat): (from: seq<nat>)
    requires victim < |tab| && dst + len <= SPACE && src + len <= SPACE
    ensures |from| == SPACE
  {
    if Apart(dst, src, len) then MoveResult(tab, victim, Addresses(), dst, src, len)
    else Splice(Addresses(), dst, Addresses()[src..src + len])
  }

  /** In a safe move, as in an overlapping one, the destination comes from the source and all else from itself. */
  lemma SafeOrigins(tab: seq<nat>, victim: nat, dst: nat, src: nat, len: nat)
    requires victim < |tab| && dst + len <= SPACE && src + len <= SPACE
    requires Apart(dst, src, len) ==> MoveSafe(tab, victim, dst, src, len)
    ensures forall x :: 0 <= x < SPACE ==>
              MoveOrigins(tab, victim, dst, src, len)[x] == if dst <= x < dst + len then src + (x - dst) else x
  {
    hide MoveResult, MoveSafe;
    if Apart(dst, src, len) { SafeMoveIsSnapshot(tab, victim, Addresses(), dst, src, len); }
  }

  /** With nothing lost the origins say it all. */
  lemma CarriedExact(now: seq<byte>, was: seq<byte>, dst: nat, src: nat, len: nat)
    requires dst + len <= SPACE && src + len <= SPACE
    requires Carried(now, was, Splice(Addresses(), dst, Addresses()[src..src + len]), {})
    ensures now == Splice(was, dst, was[src..src + len])
  {
  }

  /** The memory that is zero but for a one at `x`. */
  function OneAt(x: nat): (m: seq<byte>)
    requires x < SPACE
    ensures |m| == SPACE
  {
    seq(SPACE, i => if i == x then 1 else 0)
  }

  lemma {:induction false} CopyOfZeros(m: seq<byte>, d: nat, s: nat, n: nat)
    requires d + n <= |m| && s + n <= |m|
    requires forall i :: d <= i < d + n || s <= i < s + n ==> m[i] == 0
    ensures ForwardCopy(m, d, s, n) == m
  {
    if n > 0 { CopyOfZeros(m, d, s, n - 1); }
  }

  /** If some chunk loses its source, one byte of the destination can come out wrong. */
  lemma {:induction false} UnsafeMoveMisses(tab: seq<nat>, victim: nat, dst: nat, src: nat, len: nat) returns (k: nat)
    requires victim < |tab| && dst + len <= SPACE && src + len <= SPACE && Apart(dst, src, len)
    requires !MoveSafe(tab, victim, dst, src, len)
    ensures k < len && MoveResult(tab, victim, OneAt(src + k), dst, src, len)[dst + k] == 0
    decreases len
  {
    hide ForwardCopy, Absent, SourceKept, MapFifo, OneAt, Chunk, Mapped2;
    var n := Chunk(dst, src, len);
    var (t, v) := Mapped2(tab, victim, dst, src);
    var a := ActualSource(tab, victim, dst, src);
    SourceInSpace(tab, victim, dst, src, n);
    if SourceKept(tab, victim, src / PAGE_SIZE, dst / PAGE_SIZE) {
      k := UnsafeMoveMisses(t, v, dst + n, src + n, len - n);
      k := k + n;
      CopyOfOneAt(src + k, dst, src, n);
    } else {
      k := 0;
      SamePageKept(tab, victim, src / PAGE_SIZE);
      CopyOfOneAt(src, dst, a, n);
      MoveFrame(t, v, OneAt(src), dst + n, src + n, len - n, dst);
      assert OneAt(src)[dst] == 0 by { OneAtElsewhere(src, dst); }
    }
  }

  lemma CopyOfOneAt(x: nat, d: nat, s: nat, n: nat)
    requires x < SPACE && d + n <= SPACE && s + n <= SPACE && !(d <= x < d + n) && !(s <= x < s + n)
    ensures ForwardCopy(OneAt(x), d, s, n) == OneAt(x)
  {
    CopyOfZeros(OneAt(x), d, s, n);
  }

  lemma SamePageKept(tab: seq<nat>, victim: nat, page: nat)
    requires victim < |tab|
    ensures SourceKept(tab, victim, page, page)
  {
    var (t1, v1) := MapFifo(tab, victim, page);
    if Absent(tab, page) { assert t1[victim] == page; }
  }

  lemma OneAtElsewhere(x: nat, y: nat)
    requires x < SPACE && y < SPACE && x != y
    ensures OneAt(x)[y] == 0
  {
  }

  /**
   A move between disjoint blocks is right for every memory content exactly when
   no chunk loses its source page.
   */
  lemma MoveCorrectIff(tab: seq<nat>, victim: nat, dst: nat, src: nat, len: nat)
    requires victim < |tab| && dst + len <= SPACE && src + len <= SPACE && Apart(dst, src, len)
    ensures (forall m: seq<byte> :: |m| == SPACE ==>
               MoveResult(tab, victim, m, dst, src, len) == Splice(m, dst, m[src..src + len]))
       <==> MoveSafe(tab, victim, dst, src, len)
  {
    if MoveSafe(tab, victim, dst, src, len) {
      forall m: seq<byte> | |m| == SPACE
        ensures MoveResult(tab, victim, m, dst, src, len) == Splice(m, dst, m[src..src + len])
      {
        SafeMoveIsSnapshot(tab, victim, m, dst, src, len);
      }
    } else {
      var k := UnsafeMoveMisses(tab, victim, dst, src, len);
      var m := OneAt(src + k);
      assert Splice(m, dst, m[src..src + len])[dst + k] == m[src + k] == 1;
      assert MoveResult(tab, victim, m, dst, src, len) != Splice(m, dst, m[src..src + len]);
    }
  }

  /** Pages 5, 6, 7, ... in slot order. */
  function Consecutive(n: nat): (tab: seq<nat>)
    ensures |tab| == n && forall i :: 0 <= i < n ==> tab[i] == 5 + i
  {
    seq(n, i => 5 + i)
  }

  /** It does happen, at each size the slot table has: page 5 waits in the victim slot, page 200 is not resident. */
  lemma StaleSourceExample(n: nat)
    requires n == 20 || n == 64 || n == 96
    ensures var tab := Consecutive(n);
            && Distinct(tab) && !MoveSafe(tab, 0, 200 * PAGE_SIZE, 5 * PAGE_SIZE, 1)
            && MoveResult(tab, 0, OneAt(5 * PAGE_SIZE), 200 * PAGE_SIZE, 5 * PAGE_SIZE, 1)[200 * PAGE_SIZE] == 0
  {
    var tab := Consecutive(n);
    SourceKeptIff(tab, 0, 5, 200);
    assert !MoveSafe(tab, 0, 200 * PAGE_SIZE, 5 * PAGE_SIZE, 1);
    var k := UnsafeMoveMisses(tab, 0, 200 * PAGE_SIZE, 5 * PAGE_SIZE, 1);
  }
}
