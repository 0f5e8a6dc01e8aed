/**
 386 page translation as the plain two-level walk (Intel 80386 Programmer's
 Reference Manual, section 5.2), over a flat 4 GB physical memory.
 */
module PageWalk {
  import opened GuestMemory
  import opened Arith

  const M32: nat := 0x1_0000_0000
  const FRAME: nat := 4096

  type word = x: int | 0 <= x < 0x1_0000_0000

  function Dword(m: seq<byte>, a: nat): (v: word)
    requires a + 4 <= |m|
  {
    m[a] as int + 256 * (m[a + 1] as int) + 65536 * (m[a + 2] as int) + 16777216 * (m[a + 3] as int)
  }

  // Fields of a directory or table entry.

  predicate Present(e: nat) { e % 2 == 1 }
  predicate Writable(e: nat) { e / 2 % 2 == 1 }
  predicate User(e: nat) { e / 4 % 2 == 1 }
  function FrameOf(e: nat): (f: nat) ensures f <= e { e / FRAME * FRAME }

  /** Entry `i` of the table in the frame that `e` names. */
  function EntryAddr(e: word, i: nat): (a: nat)
    requires i < 1024
    ensures a % 4 == 0 && a + 4 <= M32
  {
    FrameOf(e) + 4 * i
  }

  function PdeAddr(cr3: word, lpgno: nat): (a: nat)
    requires lpgno < 0x10_0000
    ensures a % 4 == 0 && a + 4 <= M32
  {
    EntryAddr(cr3, lpgno / 1024)
  }

  function PteAddr(m: seq<byte>, cr3: word, lpgno: nat): (a: nat)
    requires lpgno < 0x10_0000 && |m| == M32
    ensures a % 4 == 0 && a + 4 <= M32
  {
    EntryAddr(Dword(m, PdeAddr(cr3, lpgno)), lpgno % 1024)
  }

  /** What the tables say about a page: user and write access need both levels. */
  datatype Mapping = Unmapped | Page(frame: nat, us: bool, rw: bool)

  function Walk(m: seq<byte>, cr3: word, lpgno: nat): (r: Mapping)
    requires lpgno < 0x10_0000 && |m| == M32
  {
    var pde := Dword(m, PdeAddr(cr3, lpgno));
    var pte := Dword(m, PteAddr(m, cr3, lpgno));
    if !Present(pde) || !Present(pte) then Unmapped
    else Page(FrameOf(pte), User(pde) && User(pte), Writable(pde) && Writable(pte))
  }

  /** User code needs a user page; a write needs a writable page from user code, or under CR0.WP. */
  predicate Forbidden(wp: bool, us: bool, rw: bool, user: bool, write: bool) {
    (user && !us) || (write && !rw && (user || wp))
  }

  datatype Outcome = Ok(paddr: nat) | Fault(cr2: nat, code: nat)

  /** Error code of a page fault: present, write, user. */
  function ErrorCode(present: bool, write: bool, user: bool): (c: nat) {
    (if present then 1 else 0) + (if write then 2 else 0) + (if user then 4 else 0)
  }

  /** The reference: a fresh walk for every access. */
  function Translate(m: seq<byte>, cr3: word, wp: bool, write: bool, user: bool, laddr: word): (r: Outcome)
    requires |m| == M32
  {
    match Walk(m, cr3, laddr / FRAME)
    case Unmapped => Fault(laddr, ErrorCode(false, write, user))
    case Page(frame, us, rw) =>
      if Forbidden(wp, us, rw, user, write) then Fault(laddr, ErrorCode(true, write, user))
      else Ok(frame + laddr % FRAME)
  }

  /** A dword is the little-endian value of its four bytes. */
  lemma DwordBytes(m: seq<byte>, a: nat)
    requires a + 4 <= |m|
    ensures Dword(m, a) == Load(m, a, 4)
  {
    assert m[a..a + 4] == [m[a], m[a + 1], m[a + 2], m[a + 3]];
    FromBytes4(m[a], m[a + 1], m[a + 2], m[a + 3]);
  }

  /** The two entries of a linear address lie inside memory. */
  lemma EntriesInside(base: word, index: nat)
    requires index < 1024
    ensures base / 4096 * 4096 + 4 * index + 4 <= M32
  {
  }

  /**
   Translation by the fields themselves: address bits 22 to 31 select the entry of the
   directory at CR3, bits 12 to 21 that of the table; bits 0, 1 and 2 of both entries
   are presence, write permission and user permission.
   */
  lemma TranslateFields(m: seq<byte>, cr3: word, wp: bool, write: bool, user: bool, laddr: word)
    requires |m| == M32
    ensures laddr / 0x40_0000 < 1024 && cr3 / 4096 * 4096 + 4 * (laddr / 0x40_0000) + 4 <= M32
    ensures var pde := Load(m, cr3 / 4096 * 4096 + 4 * (laddr / 0x40_0000), 4);
            && pde / 4096 * 4096 + 4 * (laddr / 4096 % 1024) + 4 <= M32
            && var pte := Load(m, pde / 4096 * 4096 + 4 * (laddr / 4096 % 1024), 4);
               var present := pde % 2 == 1 && pte % 2 == 1;
               var rw := pde / 2 % 2 == 1 && pte / 2 % 2 == 1;
               var us := pde / 4 % 2 == 1 && pte / 4 % 2 == 1;
               var refused := (user && !us) || (write && !rw && (user || wp));
               Translate(m, cr3, wp, write, user, laddr) ==
                 if present && !refused then Ok(pte / 4096 * 4096 + laddr % 4096)
                 else Fault(laddr, (if present then 1 else 0) + (if write then 2 else 0) + (if user then 4 else 0))
  {
    hide Dword;
    var i, j := laddr / 0x40_0000, laddr / 4096 % 1024;
    DivModUnique(laddr / 4096, 1024, i, laddr % 0x40_0000 / 4096);
    EntriesInside(cr3, i);
    var d := cr3 / 4096 * 4096 + 4 * i;
    DwordBytes(m, d);
    EntriesInside(Dword(m, d), j);
    DwordBytes(m, Dword(m, d) / 4096 * 4096 + 4 * j);
  }

  /** Page 1 of the table that directory entry 0 names: frame 0x5000, where entry 1 of the directory is empty. */
  lemma SecondPageExample(m: seq<byte>, wp: bool, write: bool, user: bool)
    requires |m| == M32
    requires Load(m, 0x1000, 4) == 0x2027 && Load(m, 0x2004, 4) == 0x5027 && Load(m, 0x1004, 4) == 0
    ensures Translate(m, 0x1000, wp, write, user, 0x1234) == Ok(0x5234)
    ensures Translate(m, 0x1000, wp, write, user, 0x40_0000).Fault?
  {
    hide Load, Translate;
    TranslateFields(m, 0x1000, wp, write, user, 0x1234);
    TranslateFields(m, 0x1000, wp, write, user, 0x40_0000);
  }

  // ----- Accessed and dirty bits -----

  const ACCESSED: nat := 32
  const DIRTY: nat := 64

  function SetFlag(b: byte, bit: nat): (r: byte)
    requires bit == ACCESSED || bit == DIRTY
    ensures r / bit % 2 == 1
  {
    if b / bit % 2 == 1 then b else b + bit
  }

  function Touch(m: seq<byte>, a: nat, bit: nat): (r: seq<byte>)
    requires a < |m| && (bit == ACCESSED || bit == DIRTY)
    ensures |r| == |m|
  {
    m[a := SetFlag(m[a], bit)]
  }

  predicate Touched(m: seq<byte>, a: nat, bit: nat)
    requires a < |m| && bit > 0
  {
    m[a] / bit % 2 == 1
  }

  /** Two entries that differ at most in bits 3 to 11. */
  predicate SameEntry(x: nat, y: nat) {
    x % 8 == y % 8 && x / FRAME == y / FRAME
  }

  /** A byte kept, or the low byte of an entry kept but for the accessed and dirty bits. */
  predicate KeptByte(x: nat, b: byte, c: byte) {
    b == c || (x % 4 == 0 && b % 32 == c % 32 && b / 128 == c / 128)
  }

  ghost predicate SameEntries(m: seq<byte>, n: seq<byte>) {
    && |m| == |n| == M32
    && (forall x: nat :: x < M32 ==> KeptByte(x, m[x], n[x]))
    && forall x: nat :: x % 4 == 0 && x + 4 <= M32 ==> SameEntry(Dword(m, x), Dword(n, x))
  }

  lemma EntrySplit(b: byte, rest: nat)
    ensures (b as int + 256 * rest) % 8 == b % 8 && (b as int + 256 * rest) / FRAME == rest / 16
  {
    DivModUnique(b as int + 256 * rest, 8, b as int / 8 + 32 * rest, b as int % 8);
    DivModUnique(b as int + 256 * rest, FRAME, rest / 16, b as int + 256 * (rest % 16));
  }

  lemma FlagKeepsLow(b: byte, bit: nat)
    requires bit == ACCESSED || bit == DIRTY
    ensures SetFlag(b, bit) % 8 == b % 8 && SetFlag(b, bit) % 32 == b % 32 && SetFlag(b, bit) / 128 == b / 128
  {
    var c: int := b;
    if bit == ACCESSED {
      DivModUnique(c + 32, 8, c / 8 + 4, c % 8);
      DivModUnique(c + 32, 32, c / 32 + 1, c % 32);
    } else {
      DivModUnique(c + 64, 8, c / 8 + 8, c % 8);
      DivModUnique(c + 64, 32, c / 32 + 2, c % 32);
    }
    if c / bit % 2 == 0 { HighBit(c, bit); }
  }

  lemma HighBit(c: nat, bit: nat)
    requires c < 256 && (bit == ACCESSED || bit == DIRTY) && c / bit % 2 == 0
    ensures (c + bit) / 128 == c / 128
  {
  }

  /** Setting an accessed or dirty bit changes no entry's frame or permissions. */
  lemma TouchKeepsEntries(m: seq<byte>, a: nat, bit: nat)
    requires |m| == M32 && a % 4 == 0 && a + 4 <= M32 && (bit == ACCESSED || bit == DIRTY)
    ensures SameEntries(m, Touch(m, a, bit))
  {
    var n := Touch(m, a, bit);
    FlagKeepsLow(m[a], bit);
    forall x: nat | x % 4 == 0 && x + 4 <= M32 ensures SameEntry(Dword(m, x), Dword(n, x)) {
      if x == a {
        var rest := m[a + 1] as int + 256 * (m[a + 2] as int) + 65536 * (m[a + 3] as int);
        EntrySplit(m[a], rest);
        EntrySplit(n[a], rest);
        FlagKeepsLow(m[a], bit);
      }
    }
  }

  lemma SameBits(x: nat, y: nat)
    requires SameEntry(x, y)
    ensures Present(x) == Present(y) && Writable(x) == Writable(y) && User(x) == User(y) && FrameOf(x) == FrameOf(y)
  {
    LowThree(x);
    LowThree(y);
  }

  lemma LowThree(x: nat)
    ensures x % 2 == x % 8 % 2 && x / 2 % 2 == x % 8 / 2 % 2 && x / 4 % 2 == x % 8 / 4 % 2
  {
    var k, r := x / 8, x % 8;
    DivModUnique(x, 2, 4 * k + r / 2, r % 2);
    DivModUnique(x / 2, 2, 2 * k + r / 4, r / 2 % 2);
    DivModUnique(x, 4, 2 * k + r / 4, r % 4);
    DivModUnique(x / 4, 2, k, r / 4);
  }

  /** Walks depend on frames and permissions only. */
  lemma SameWalk(m: seq<byte>, n: seq<byte>, cr3: word, lpgno: nat)
    requires SameEntries(m, n) && lpgno < 0x10_0000
    ensures Walk(m, cr3, lpgno) == Walk(n, cr3, lpgno) && PteAddr(m, cr3, lpgno) == PteAddr(n, cr3, lpgno)
  {
    var d := PdeAddr(cr3, lpgno);
    SameBits(Dword(m, d), Dword(n, d));
    var t := PteAddr(m, cr3, lpgno);
    assert t == PteAddr(n, cr3, lpgno);
    SameBits(Dword(m, t), Dword(n, t));
  }

  lemma SameEntriesTrans(a: seq<byte>, b: seq<byte>, c: seq<byte>)
    requires SameEntries(a, b) && SameEntries(b, c)
    ensures SameEntries(a, c)
  {
    forall x: nat | x % 4 == 0 && x + 4 <= M32 ensures SameEntry(Dword(a, x), Dword(c, x)) {
      assert SameEntry(Dword(a, x), Dword(b, x)) && SameEntry(Dword(b, x), Dword(c, x));
    }
    forall x: nat | x < M32 ensures KeptByte(x, a[x], c[x]) {
      assert KeptByte(x, a[x], b[x]) && KeptByte(x, b[x], c[x]);
    }
  }

  // ----- XOR of addresses -----

  function Xor(x: nat, y: nat): (z: nat) {
    if x == 0 && y == 0 then 0 else (x % 2 + y % 2) % 2 + 2 * Xor(x / 2, y / 2)
  }

  lemma XorStep(z: nat, i: nat, w: nat, j: nat)
    requires i < 2 && j < 2
    ensures Xor(2 * z + i, 2 * w + j) == (i + j) % 2 + 2 * Xor(z, w)
  {
    DivModUnique(2 * z + i, 2, z, i);
    DivModUnique(2 * w + j, 2, w, j);
    if z == 0 && w == 0 && i == 0 && j == 0 { assert Xor(0, 0) == 0; }
  }

  lemma XorZero()
    ensures Xor(0, 0) == 0
  {
  }

  lemma {:induction false} XorCancels(f: nat, b: nat)
    ensures Xor(Xor(f, b), b) == f
    decreases f + b
  {
    hide Xor;
    if f == 0 && b == 0 {
      XorZero();
    } else {
      var x, i, y, j := f / 2, f % 2, b / 2, b % 2;
      XorCancels(x, y);
      XorStep(x, i, y, j);
      XorStep(Xor(x, y), (i + j) % 2, y, j);
      assert ((i + j) % 2 + j) % 2 == i;
    }
  }

  /** Zero bits at the bottom of one operand leave those of the other. */
  lemma {:induction false} XorSplit(f: nat, b: nat, o: nat, k: nat)
    requires o < Pow2(k)
    ensures Xor(f * Pow2(k), b * Pow2(k) + o) == Xor(f, b) * Pow2(k) + o
    decreases k
  {
    hide Xor;
    if k > 0 {
      var p := Pow2(k - 1);
      Doubled(f, k);
      Doubled(b, k);
      Doubled(Xor(f, b), k);
      XorSplit(f, b, o / 2, k - 1);
      XorStep(f * p, 0, b * p + o / 2, o % 2);
      assert b * Pow2(k) + o == 2 * (b * p + o / 2) + o % 2;
      assert f * Pow2(k) == 2 * (f * p) + 0;
    }
  }

  lemma Doubled(f: nat, k: nat)
    requires k > 0
    ensures f * Pow2(k) == 2 * (f * Pow2(k - 1))
  {
  }

  /** With a page-aligned operand the offset within the page comes through. */
  lemma XorPage(x: nat, laddr: nat)
    requires x % FRAME == 0
    ensures Xor(x, laddr) == Xor(x / FRAME, laddr / FRAME) * FRAME + laddr % FRAME
    ensures Xor(x, laddr) / FRAME == Xor(x / FRAME, laddr / FRAME) && Xor(x, laddr) % FRAME == laddr % FRAME
  {
    hide Xor;
    Powers();
    XorSplit(x / FRAME, laddr / FRAME, laddr % FRAME, 12);
    DivModUnique(Xor(x, laddr), FRAME, Xor(x / FRAME, laddr / FRAME), laddr % FRAME);
  }

  /** With xaddr = frame ^ page, xaddr ^ laddr is the frame plus the offset. */
  lemma XorFrame(frame: nat, lpgno: nat, laddr: nat)
    requires frame % FRAME == 0 && laddr / FRAME == lpgno
    ensures Xor(Xor(frame, lpgno * FRAME), laddr) == frame + laddr % FRAME
  {
    hide Xor;
    DivModUnique(lpgno * FRAME, FRAME, lpgno, 0);
    XorPage(frame, lpgno * FRAME);
    var x := Xor(frame / FRAME, lpgno);
    DivModUnique(x * FRAME, FRAME, x, 0);
    XorPage(x * FRAME, laddr);
    XorCancels(frame / FRAME, lpgno);
  }

  lemma {:induction false} XorZeroLeft(b: nat)
    ensures Xor(0, b) == b
  {
    if b > 0 { XorZeroLeft(b / 2); }
  }

  lemma {:induction false} XorSelf(a: nat)
    ensures Xor(a, a) == 0
  {
    if a > 0 { XorSelf(a / 2); }
  }

  lemma {:induction false} XorComm(a: nat, b: nat)
    ensures Xor(a, b) == Xor(b, a)
    decreases a + b
  {
    if a > 0 || b > 0 { XorComm(a / 2, b / 2); }
  }

  lemma {:induction false} XorBound(a: nat, b: nat, k: nat)
    requires a < Pow2(k) && b < Pow2(k)
    ensures Xor(a, b) < Pow2(k)
    decreases k
  {
    if k > 0 { XorBound(a / 2, b / 2, k - 1); }
  }

  /** Exclusive or with all ones is the complement. */
  lemma {:induction false} XorOnes(x: nat, k: nat)
    requires x < Pow2(k)
    ensures Xor(x, Pow2(k) - 1) == Pow2(k) - 1 - x
  {
    hide Xor;
    if k == 0 {
      XorZero();
    } else {
      XorOnes(x / 2, k - 1);
      XorStep(x / 2, x % 2, Pow2(k - 1) - 1, 1);
    }
  }

  lemma XorIsZero(a: nat, b: nat)
    ensures Xor(a, b) == 0 <==> a == b
  {
    hide Xor;
    XorSelf(a);
    if Xor(a, b) == 0 {
      XorCancels(a, b);
      XorZeroLeft(b);
    }
  }
}
