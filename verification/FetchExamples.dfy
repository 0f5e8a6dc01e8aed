/** Three concrete runs, each ending in a fetch that a fresh walk would answer differently. */
module FetchExamples {
  import opened GuestMemory
  import opened PageWalk
  import opened Mmu
  import opened FetchPage
  import opened FetchRuns

  /** A table and a directory with one supervisor page: linear page 0 at physical 0x3000. */
  function Tables(): (m: seq<byte>)
    ensures |m| == M32
  {
    seq(M32, i => TableByte(i))
  }

  function TableByte(i: int): (b: byte) {
    if i == 0x1000 || i == 0x2000 then 0x23 else if i == 0x1001 then 0x20 else if i == 0x2001 then 0x30 else 0
  }

  lemma TablesWalk()
    ensures Walk(Tables(), 0x1000, 0) == Page(0x3000, false, true)
    ensures Walk(Tables(), 0x1000, 0xF_FFFF) == Unmapped
  {
    hide Tables, Dword;
    var m := Tables();
    TableEntries();
    assert PdeAddr(0x1000, 0) == 0x1000 && PdeAddr(0x1000, 0xF_FFFF) == 0x1FFC;
    assert PteAddr(m, 0x1000, 0) == 0x2000;
  }

  lemma TableEntries()
    ensures Dword(Tables(), 0x1000) == 0x2023 && Dword(Tables(), 0x2000) == 0x3023 && Dword(Tables(), 0x1FFC) == 0
  {
  }

  /** Paging on, nothing remembered, ring 0, about to fetch from linear 0. */
  function Started(): (s: Snap)
    ensures IsShape(s) && s.laddr == 0
  {
    Snap(Tables(), true, 0x1000, false, false, 0, NONE, 0, NONE, seq(16, _ => 0))
  }

  /** The same after that fetch. */
  function Remembering(): (s: Snap)
    ensures IsShape(s) && s.laddr == 0
  {
    Started().(ifLaddr := 0, ifXaddr := 0x3000, base := 0x3000, buf := Tables()[0x3000..0x3010])
  }

  lemma FirstFetch()
    ensures Coherent(Started()) && Coherent(Remembering())
    ensures Step(Peek8, Started(), Remembering(), Got([0x3000], [0]))
  {
    hide Tables, Walk, SameEntries, Xor;
    var s, t := Started(), Remembering();
    TablesWalk();
    AllOnes(0);
    SameRefl(s.mem);
    XorComm(0x3000, 0);
    XorZeroLeft(0x3000);
    TableZero();
  }

  lemma TableZero()
    ensures forall i :: 0x3000 <= i < 0x3010 ==> Tables()[i] == 0
  {
  }

  /** The same again, at ring 3. */
  function AtRing3(): (s: Snap)
    ensures IsShape(s) && s.laddr == 0
  {
    Remembering().(user := true)
  }

  /** Ring 0 fetches from a supervisor page, drops to ring 3, and is served from it again. */
  lemma RingTrapExample()
    ensures Coherent(Started())
    ensures IsRun([Peek8, SetCpl(true), Peek8], [Started(), Remembering(), AtRing3(), AtRing3()],
                  [Got([0x3000], [0]), Silent, Got([0x3000], [0])])
    ensures Answer(AtRing3(), 0).Fault? && !Answered(AtRing3(), AtRing3(), Got([0x3000], [0]))
  {
    hide Tables, Walk, SameEntries, Xor;
    FirstFetch();
    TablesWalk();
    TableZero();
    var u := AtRing3();
    AtPageStart(u);
    SameRefl(u.mem);
    assert ServedBytes(u, 1) == [0] && ServedAddrs(u, 1) == [0x3000];
  }

  lemma AtPageStart(u: Snap)
    requires u.laddr == 0 && u.ifLaddr == 0 && u.ifXaddr == 0x3000
    ensures PageHit(u, 1) && Served(u) == 0x3000
  {
    hide Xor;
    XorSelf(0);
    XorComm(0x3000, 0);
    XorZeroLeft(0x3000);
  }

  /** Flushed, and about to fetch from the last linear page. */
  function AtTop(): (s: Snap)
    ensures IsShape(s) && s.laddr == 0xFFFF_F000
  {
    Forgotten(Remembering()).(laddr := 0xFFFF_F000)
  }

  /** After a flush the last linear page is served from the old translation, mapped or not. */
  lemma LastPageExample() returns (t: Snap, last: Report)
    ensures Coherent(Started())
    ensures IsRun([Peek8, LoadCr3(0x1000), Jump(0xFFFF_F000, 0), Peek8],
                  [Started(), Remembering(), Forgotten(Remembering()), AtTop(), t],
                  [Got([0x3000], [0]), Silent, Silent, last])
    ensures last.Got? && Answer(AtTop(), 0).Fault? && t.mem == AtTop().mem && !Answered(AtTop(), t, last)
  {
    hide Tables, Walk, SameEntries, Xor;
    FirstFetch();
    TablesWalk();
    var j := AtTop();
    PageHitMeans(j, 1);
    ServedFits(j, 1);
    BlockInside(Served(j));
    t := j.(base := Covered(j).0, buf := Covered(j).1);
    last := Got(ServedAddrs(j, 1), ServedBytes(j, 1));
    SameRefl(j.mem);
    assert Step(Peek8, j, t, last);
  }

  /** Byte `i` of physical memory holds the low byte of its address. */
  function Ramp(): (m: seq<byte>)
    ensures |m| == M32
  {
    seq(M32, i => i % 256)
  }

  /** No paging, about to fetch from 0x20. */
  function Flat(): (s: Snap)
    ensures IsShape(s) && s.laddr == 0x20
  {
    Snap(Ramp(), false, 0, false, false, 0x20, NONE, 0, NONE, seq(16, _ => 0))
  }

  /** The same after that fetch. */
  function Buffering(): (s: Snap)
    ensures IsShape(s) && s.laddr == 0x20
  {
    Flat().(ifLaddr := 0, base := 0x20, buf := Ramp()[0x20..0x30])
  }

  /** And after a jump to 5. */
  function At5(): (s: Snap)
    ensures IsShape(s) && s.laddr == 5
  {
    Buffering().(laddr := 5, base := NONE)
  }

  /** A jump drops the tag but not the bytes; at physical 5 the dropped tag is a hit. */
  lemma StaleTagExample()
    ensures Coherent(Flat())
    ensures IsRun([Peek8, Jump(0, 5), Peek8], [Flat(), Buffering(), At5(), At5()],
                  [Got([0x20], [0x20]), Silent, Got([5], [0x25])])
    ensures Answer(At5(), 0) == Ok(5) && At5().mem[5] == 5 && !Answered(At5(), At5(), Got([5], [0x25]))
  {
    hide Ramp, Walk, SameEntries, Xor;
    RampAt();
    FlatFetch();
    var j := At5();
    XorZeroLeft(5);
    XorComm(5, 0);
    SameRefl(j.mem);
    assert ServedAddrs(j, 1) == [5] && ServedBytes(j, 1) == [0x25];
  }

  lemma FlatFetch()
    ensures Step(Peek8, Flat(), Buffering(), Got([0x20], [0x20]))
  {
    hide Ramp, Walk, SameEntries, Xor;
    AllOnes(0x20);
    XorSelf(0x20);
    RampAt();
    SameRefl(Ramp());
  }

  lemma RampAt()
    ensures Ramp()[5] == 5 && forall i :: 0x20 <= i < 0x30 ==> Ramp()[i] == i
  {
  }
}
