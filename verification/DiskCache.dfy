/**
 The sector cache of the master, kept in the slave's memory behind the link.
 The card is what a cached sector must equal while the cache is on.
 */
module DiskCache {
  import opened Link
  import opened Arith

  const DC_SECTORS: nat := 1024
  const DC_SEC_WORDS: nat := 128
  const DC_EMPTY: nat := 0xFFFF_FFFF

  type Card = nat -> seq<word>

  /** The sector `i` places on, in 32-bit arithmetic. */
  function SectorAt(sector: nat, i: nat): (lba: nat) { (sector + i) % WORD }

  lemma SectorIs(sector: nat, i: nat)
    ensures SectorAt(sector, i) == (sector + i) % 0x1_0000_0000
  {
  }

  lemma {:induction false} PeekIsSlice(mem: seq<word>, a: nat, n: nat)
    requires a + n <= |mem| <= ADDR_SPAN
    ensures PeekMany(mem, a, n) == mem[a..a + n]
    decreases n
  {
    if n > 0 {
      PeekIsSlice(mem, a + 1, n - 1);
      NextAddress(a);
      HeadOfSlice(mem, a, n);
    }
  }

  lemma NextAddress(a: nat)
    requires a < ADDR_SPAN
    ensures (a + 1) % WORD == a + 1
  {
  }

  lemma HeadOfSlice(mem: seq<word>, a: nat, n: nat)
    requires n > 0 && a + n <= |mem|
    ensures mem[a..a + n] == [mem[a]] + mem[a + 1..a + 1 + (n - 1)]
  {
  }

  lemma {:induction false} PokeIsSplice(mem: seq<word>, a: nat, vs: seq<word>)
    requires a + |vs| <= |mem| <= ADDR_SPAN
    ensures PokeMany(mem, a, vs) == mem[..a] + vs + mem[a + |vs|..]
    decreases |vs|
  {
    if vs != [] {
      PokeIsSplice(mem[a := vs[0]], a + 1, vs[1..]);
    }
  }

  /** Slot `s` of the slave's memory. */
  function Slot(mem: seq<word>, s: nat): (ws: seq<word>)
    requires s < DC_SECTORS && DC_SECTORS * DC_SEC_WORDS <= |mem|
  {
    mem[s * DC_SEC_WORDS..s * DC_SEC_WORDS + DC_SEC_WORDS]
  }

  /** A sector written to its slot is there, and in no other slot. */
  lemma SlotWritten(mem: seq<word>, s: nat, vs: seq<word>, t: nat)
    requires s < DC_SECTORS && t < DC_SECTORS && DC_SECTORS * DC_SEC_WORDS <= |mem| <= ADDR_SPAN && |vs| == DC_SEC_WORDS
    ensures var m := PokeMany(mem, s * DC_SEC_WORDS, vs);
            |m| == |mem| && Slot(m, t) == if t == s then vs else Slot(mem, t)
  {
    var a := s * DC_SEC_WORDS;
    PokeIsSplice(mem, a, vs);
    var m := mem[..a] + vs + mem[a + DC_SEC_WORDS..];
    if t < s {
      assert t * DC_SEC_WORDS + DC_SEC_WORDS <= a;
    } else if t > s {
      assert a + DC_SEC_WORDS <= t * DC_SEC_WORDS;
    }
    assert Slot(m, t) == if t == s then vs else Slot(mem, t);
  }

  /** Every tag in use names a sector of its own slot, whose copy equals the card. */
  ghost predicate Faithful(tag: seq<nat>, mem: seq<word>, card: Card)
    requires |tag| == DC_SECTORS && DC_SECTORS * DC_SEC_WORDS <= |mem|
  {
    forall s :: 0 <= s < DC_SECTORS && tag[s] != DC_EMPTY ==> tag[s] % DC_SECTORS == s && Slot(mem, s) == card(tag[s])
  }

  /** dc_tag says that the sector is cached. */
  predicate Hit(tag: seq<nat>, lba: nat)
    requires |tag| == DC_SECTORS
  {
    tag[lba % DC_SECTORS] == lba
  }

  /** The one sector number that hits in an empty cache is the mark for an empty slot. */
  lemma EmptyCacheHits(tag: seq<nat>, lba: nat)
    requires |tag| == DC_SECTORS && forall s :: 0 <= s < DC_SECTORS ==> tag[s] == DC_EMPTY
    ensures Hit(tag, lba) <==> lba == DC_EMPTY
  {
  }

  /** A sector other than the mark, or one whose slot happens to hold it. */
  ghost predicate HoldsSector(mem: seq<word>, card: Card, lba: nat)
    requires DC_SECTORS * DC_SEC_WORDS <= |mem|
  {
    lba != DC_EMPTY || Slot(mem, DC_EMPTY % DC_SECTORS) == card(DC_EMPTY)
  }

  class SectorCache {
    const wire: Wire
    const tag: array<nat>
    var on: bool
    ghost var card: Card

    ghost predicate Valid()
      reads this, wire, tag
    {
      && wire.Settled() && tag.Length == DC_SECTORS && (forall l :: |card(l)| == DC_SEC_WORDS)
      && (on ==> !wire.broken && DC_SECTORS * DC_SEC_WORDS <= |wire.Memory()| <= ADDR_SPAN
                 && Faithful(tag[..], wire.Memory(), card))
    }

    /** dc_init over a link that is up. */
    constructor (wire: Wire, ghost card: Card)
      requires wire.Settled() && !wire.broken && DC_SECTORS * DC_SEC_WORDS <= |wire.Memory()| <= ADDR_SPAN
      requires forall l :: |card(l)| == DC_SEC_WORDS
      ensures Valid() && on && fresh(tag) && this.wire == wire && this.card == card
      ensures forall s :: 0 <= s < DC_SECTORS ==> tag[s] == DC_EMPTY
    {
      this.wire, this.card, on := wire, card, true;
      tag := new nat[DC_SECTORS](_ => DC_EMPTY);
    }

    /** The burst that fetches one cached sector. */
    method ReadSector(lba: nat) returns (ok: bool, ws: seq<word>)
      requires Valid() && on && Hit(tag[..], lba)
      modifies wire
      ensures wire.Settled() && wire.broken == !ok
      ensures ok ==> wire.Memory() == old(wire.Memory()) && ws == Slot(wire.Memory(), lba % DC_SECTORS)
    {
      hide Wire.Settled, Wire.Memory, PeekMany;
      var slot := lba % DC_SECTORS;
      DivModUnique(slot * DC_SEC_WORDS, ADDR_SPAN, 0, slot * DC_SEC_WORDS);
      PeekIsSlice(wire.Memory(), slot * DC_SEC_WORDS, DC_SEC_WORDS);
      ok, ws := wire.ReadBurst(slot * DC_SEC_WORDS, DC_SEC_WORDS, 2000000);
    }

    /**
     dc_read: all of the sectors or nothing.  Each is what its slot holds, and that is
     the card's sector; only the number that marks an empty slot is believed cached
     while its slot may hold anything.
     */
    method Read(sector: nat, count: nat) returns (ok: bool, dst: seq<seq<word>>)
      requires Valid()
      modifies this`on, wire
      ensures Valid() && (ok ==> on && old(on) && count > 0 && |dst| == count && wire.Memory() == old(wire.Memory()))
      ensures ok ==> forall i :: 0 <= i < count ==> Hit(tag[..], SectorAt(sector, i))
      ensures ok ==> forall i :: 0 <= i < count ==> dst[i] == Slot(wire.Memory(), SectorAt(sector, i) % DC_SECTORS)
      ensures ok ==> forall i :: 0 <= i < count ==>
                (dst[i] == card((sector + i) % 0x1_0000_0000) <==>
                 HoldsSector(wire.Memory(), card, (sector + i) % 0x1_0000_0000))
      ensures on == (old(on) && !wire.broken) && (!on ==> !ok)
      ensures on && !ok ==> count == 0 || exists i :: 0 <= i < count && !Hit(tag[..], SectorAt(sector, i))
    {
      hide Wire.Settled, Wire.Memory, SectorAt;
      ok, dst := false, [];
      if !on || count == 0 { return; }
      var i := 0;
      while i < count
        invariant 0 <= i <= count
        invariant forall k :: 0 <= k < i ==> Hit(tag[..], SectorAt(sector, k))
      {
        if tag[SectorAt(sector, i) % DC_SECTORS] != SectorAt(sector, i) { return; }
        i := i + 1;
      }
      i := 0;
      while i < count
        invariant 0 <= i <= count && |dst| == i && Valid() && on && wire.Memory() == old(wire.Memory())
        invariant forall k :: 0 <= k < count ==> Hit(tag[..], SectorAt(sector, k))
        invariant forall k :: 0 <= k < i ==> dst[k] == Slot(wire.Memory(), SectorAt(sector, k) % DC_SECTORS)
      {
        var good, ws := ReadSector(SectorAt(sector, i));
        if !good { on := false; return; }
        dst := dst + [ws];
        i := i + 1;
      }
      ok := true;
      forall k | 0 <= k < count ensures SectorAt(sector, k) == (sector + k) % 0x1_0000_0000 { SectorIs(sector, k); }
    }

    /** dc_fill with sectors just read from the card. */
    method Fill(sector: nat, src: seq<seq<word>>)
      requires Valid() && forall i :: 0 <= i < |src| ==> src[i] == card(SectorAt(sector, i))
      modifies this`on, wire, tag
      ensures Valid() && on == (old(on) && !wire.broken)
      ensures on ==> forall l :: Hit(tag[..], l) ==>
                (exists i :: 0 <= i < |src| && SectorAt(sector, i) == l) || old(Hit(tag[..], l))
      ensures on ==> Cached(sector, |src|, tag[..]) && Spared(sector, |src|, old(tag[..]), tag[..])
    {
      hide Wire.Settled, Wire.Memory, SectorAt, Faithful, PokeMany, Cached, Spared;
      NothingCached(sector, tag[..]);
      if !on || |src| == 0 { return; }
      var i := 0;
      while i < |src|
        invariant 0 <= i <= |src| && Valid() && on
        invariant forall l :: Hit(tag[..], l) ==>
                    (exists k :: 0 <= k < i && SectorAt(sector, k) == l) || old(Hit(tag[..], l))
        invariant Cached(sector, i, tag[..]) && Spared(sector, i, old(tag[..]), tag[..])
      {
        var lba: nat := SectorAt(sector, i);
        var slot := lba % DC_SECTORS;
        DivModUnique(slot * DC_SEC_WORDS, ADDR_SPAN, 0, slot * DC_SEC_WORDS);
        ghost var was, mem := tag[..], wire.Memory();
        var ok := wire.WriteBurst(slot * DC_SEC_WORDS, src[i]);
        if !ok { on := false; return; }
        tag[slot] := lba;
        assert tag[..] == was[slot := lba];
        Filled(was, mem, card, lba, src[i]);
        OneMoreCached(sector, i, old(tag[..]), was);
        i := i + 1;
      }
    }

    /** dc_invalidate. */
    method Invalidate(sector: nat, count: nat)
      requires tag.Length == DC_SECTORS
      modifies tag
      ensures forall s :: 0 <= s < DC_SECTORS ==>
                tag[s] == if on && Dropped(sector, count, old(tag[s]), s) then DC_EMPTY else old(tag[s])
    {
      hide SectorAt;
      if !on { return; }
      var i := 0;
      while i < count
        invariant 0 <= i <= count
        invariant forall s :: 0 <= s < DC_SECTORS ==>
                    tag[s] == if Dropped(sector, i, old(tag[s]), s) then DC_EMPTY else old(tag[s])
      {
        var lba: nat := SectorAt(sector, i);
        var slot := lba % DC_SECTORS;
        if tag[slot] == lba { tag[slot] := DC_EMPTY; }
        forall s | 0 <= s < DC_SECTORS
          ensures tag[s] == if Dropped(sector, i + 1, old(tag[s]), s) then DC_EMPTY else old(tag[s])
        {
          DroppedNext(sector, i, old(tag[s]), s);
        }
        i := i + 1;
      }
    }

    /** A write reaches the card, and then the sectors it changed are dropped. */
    method WriteThrough(sector: nat, count: nat, ghost newCard: Card)
      requires Valid() && forall l :: |newCard(l)| == DC_SEC_WORDS
      requires forall l :: (exists i :: 0 <= i < count && SectorAt(sector, i) == l) || newCard(l) == card(l)
      modifies this`card, tag
      ensures Valid() && card == newCard
    {
      hide Wire.Settled, Wire.Memory, SectorAt;
      card := newCard;
      Invalidate(sector, count);
    }
  }

  /** The tag of slot `s` names one of the sectors dropped. */
  ghost predicate Dropped(sector: nat, count: nat, lba: nat, s: nat) {
    exists i :: 0 <= i < count && SectorAt(sector, i) == lba && lba % DC_SECTORS == s
  }

  lemma DroppedNext(sector: nat, i: nat, lba: nat, s: nat)
    ensures Dropped(sector, i + 1, lba, s) <==>
              Dropped(sector, i, lba, s) || (SectorAt(sector, i) == lba && lba % DC_SECTORS == s)
  {
    hide SectorAt;
    if Dropped(sector, i + 1, lba, s) {
      var k :| 0 <= k < i + 1 && SectorAt(sector, k) == lba && lba % DC_SECTORS == s;
    }
    if SectorAt(sector, i) == lba && lba % DC_SECTORS == s { assert Dropped(sector, i + 1, lba, s); }
    if Dropped(sector, i, lba, s) {
      var k :| 0 <= k < i && SectorAt(sector, k) == lba && lba % DC_SECTORS == s;
      assert 0 <= k < i + 1 && SectorAt(sector, k) == lba;
    }
  }

  /** A later sector of the fill takes the slot of this one. */
  ghost predicate Displaced(sector: nat, i: nat, n: nat) {
    exists k :: i < k < n && SectorAt(sector, k) % DC_SECTORS == SectorAt(sector, i) % DC_SECTORS
  }

  /** Of the first `n` sectors of a fill, each that no later one displaces is cached. */
  ghost predicate Cached(sector: nat, n: nat, tag: seq<nat>)
    requires |tag| == DC_SECTORS
  {
    forall i :: 0 <= i < n && !Displaced(sector, i, n) ==> Hit(tag, SectorAt(sector, i))
  }

  /** A slot that none of them takes is left alone. */
  ghost predicate Spared(sector: nat, n: nat, was: seq<nat>, tag: seq<nat>)
    requires |was| == |tag| == DC_SECTORS
  {
    forall s :: 0 <= s < DC_SECTORS && (forall k :: 0 <= k < n ==> SectorAt(sector, k) % DC_SECTORS != s) ==>
      tag[s] == was[s]
  }

  lemma NothingCached(sector: nat, tag: seq<nat>)
    requires |tag| == DC_SECTORS
    ensures Cached(sector, 0, tag) && Spared(sector, 0, tag, tag)
  {
  }

  lemma OneMoreCached(sector: nat, n: nat, was: seq<nat>, tag: seq<nat>)
    requires |was| == |tag| == DC_SECTORS && Cached(sector, n, tag) && Spared(sector, n, was, tag)
    ensures var after := tag[SectorAt(sector, n) % DC_SECTORS := SectorAt(sector, n)];
            Cached(sector, n + 1, after) && Spared(sector, n + 1, was, after)
  {
    hide SectorAt;
    var after := tag[SectorAt(sector, n) % DC_SECTORS := SectorAt(sector, n)];
    forall i | 0 <= i < n + 1 && !Displaced(sector, i, n + 1)
      ensures Hit(after, SectorAt(sector, i))
    {
      if i < n {
        assert SectorAt(sector, n) % DC_SECTORS != SectorAt(sector, i) % DC_SECTORS;
        assert !Displaced(sector, i, n);
        assert Hit(tag, SectorAt(sector, i));
      }
    }
    forall s | 0 <= s < DC_SECTORS && (forall k :: 0 <= k < n + 1 ==> SectorAt(sector, k) % DC_SECTORS != s)
      ensures after[s] == was[s]
    {
      assert SectorAt(sector, n) % DC_SECTORS != s;
    }
  }

  lemma Filled(tag: seq<nat>, mem: seq<word>, card: Card, lba: nat, ws: seq<word>)
    requires |tag| == DC_SECTORS && DC_SECTORS * DC_SEC_WORDS <= |mem| <= ADDR_SPAN && Faithful(tag, mem, card)
    requires |ws| == DC_SEC_WORDS && ws == card(lba)
    ensures Faithful(tag[lba % DC_SECTORS := lba], PokeMany(mem, lba % DC_SECTORS * DC_SEC_WORDS, ws), card)
  {
    hide Slot, PokeMany;
    forall t | 0 <= t < DC_SECTORS
      ensures Slot(PokeMany(mem, lba % DC_SECTORS * DC_SEC_WORDS, ws), t) ==
                if t == lba % DC_SECTORS then ws else Slot(mem, t)
    {
      SlotWritten(mem, lba % DC_SECTORS, ws, t);
    }
  }

  /** An empty cache over a card full of ones delivers zeros for sector 0xFFFFFFFF, unless the link fails. */
  method EmptyCacheExample() returns (cache: SectorCache, ok: bool, dst: seq<seq<word>>)
    ensures cache.Valid() && |cache.card(DC_EMPTY)| == DC_SEC_WORDS && cache.card(DC_EMPTY)[0] == 1
    ensures if ok then |dst| == 1 && |dst[0]| == DC_SEC_WORDS && dst[0][0] == 0 else !cache.on
  {
    hide Wire.Settled, Wire.Memory;
    var wire := new Wire(seq(DC_SECTORS * DC_SEC_WORDS, _ => 0));
    cache := new SectorCache(wire, _ => seq(DC_SEC_WORDS, _ => 1));
    EmptyCacheHits(cache.tag[..], DC_EMPTY);
    ok, dst := cache.Read(DC_EMPTY, 1);
  }
}
