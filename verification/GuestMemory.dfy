/**
 The flat guest memory: a sequence of bytes with little-endian 8/16/32-bit
 accesses.  This is the direct backend (guest_ram_base), and it is what every
 cached, banked or translated path in the other modules is compared with.
 */
module GuestMemory {

  type byte = x: int | 0 <= x < 256

  /** The display aperture is device I/O, not memory. */
  predicate VgaWindow(a: nat) {
    0xa0000 <= a < 0xc0000 || a >= 0xe000_0000
  }

  /** The value of `bs` read as one little-endian number. */
  function FromBytes(bs: seq<byte>): (v: nat)
  {
    if bs == [] then 0 else bs[0] + 256 * FromBytes(bs[1..])
  }

  /** The low `w` bytes of `v`, least significant first. */
  function ToBytes(v: nat, w: nat): (bs: seq<byte>)
    ensures |bs| == w
  {
    if w == 0 then [] else [v % 256] + ToBytes(v / 256, w - 1)
  }

  /** Overwrite `|bs|` bytes of `m` at `a`. */
  function Splice<T>(m: seq<T>, a: nat, bs: seq<T>): (r: seq<T>)
    requires a + |bs| <= |m|
    ensures |r| == |m|
    ensures forall i {:trigger r[i]} :: 0 <= i < |m| ==> r[i] == if a <= i < a + |bs| then bs[i - a] else m[i]
  {
    m[..a] + bs + m[a + |bs|..]
  }

  lemma SpliceShows(m: seq<byte>, a: nat, x: seq<byte>)
    requires a + |x| <= |m|
    ensures Splice(m, a, x)[a..a + |x|] == x
  {
  }

  lemma SliceJoin(m: seq<byte>, a: nat, i: nat, l: nat)
    requires a + i + l <= |m|
    ensures m[a..a + i] + m[a + i..a + i + l] == m[a..a + i + l]
  {
  }

  lemma SpliceNothing<T>(m: seq<T>, a: nat, x: seq<T>)
    requires a <= |m| && |x| == 0
    ensures Splice(m, a, x) == m
  {
  }

  lemma SpliceJoin(m: seq<byte>, a: nat, x: seq<byte>, y: seq<byte>)
    requires a + |x| + |y| <= |m|
    ensures Splice(Splice(m, a, x), a + |x|, y) == Splice(m, a, x + y)
  {
  }

  method WriteBytes(dst: array<byte>, d: nat, bs: seq<byte>)
    requires d + |bs| <= dst.Length
    modifies dst
    ensures dst[..] == Splice(old(dst[..]), d, bs)
  {
    forall i | 0 <= i < |bs| { dst[d + i] := bs[i]; }
  }

  function Load(m: seq<byte>, a: nat, w: nat): (v: nat)
    requires a + w <= |m|
  {
    FromBytes(m[a..a + w])
  }

  function Store(m: seq<byte>, a: nat, w: nat, v: nat): (r: seq<byte>)
    requires a + w <= |m|
    ensures |r| == |m|
  {
    Splice(m, a, ToBytes(v, w))
  }

  lemma {:induction false} ToFromBytes(bs: seq<byte>)
    ensures ToBytes(FromBytes(bs), |bs|) == bs
  {
    if bs != [] {
      ToFromBytes(bs[1..]);
      assert FromBytes(bs) % 256 == bs[0] && FromBytes(bs) / 256 == FromBytes(bs[1..]);
    }
  }

  function Pow256(w: nat): nat { if w == 0 then 1 else 256 * Pow256(w - 1) }

  lemma {:induction false} FromToBytes(v: nat, w: nat)
    requires v < Pow256(w)
    ensures FromBytes(ToBytes(v, w)) == v
  {
    if w != 0 {
      FromToBytes(v / 256, w - 1);
      assert ToBytes(v, w)[1..] == ToBytes(v / 256, w - 1);
    }
  }

  /** A load returns what the last store of that width put there. */
  lemma LoadAfterStore(m: seq<byte>, a: nat, w: nat, v: nat)
    requires a + w <= |m| && v < Pow256(w)
    ensures Load(Store(m, a, w, v), a, w) == v
  {
    FromToBytes(v, w);
    assert Store(m, a, w, v)[a..a + w] == ToBytes(v, w);
  }

  lemma SliceOfSlice<T>(m: seq<T>, a: nat, n: nat, i: nat, j: nat)
    requires a + n <= |m| && i <= j <= n
    ensures m[a..a + n][i..j] == m[a + i..a + j]
  {
    var x, y := m[a..a + n][i..j], m[a + i..a + j];
    assert |x| == |y| && forall k :: 0 <= k < |x| ==> x[k] == y[k];
  }

  lemma FromBytes1(b: byte)
    ensures FromBytes([b]) == b
  {
    assert [b][1..] == [];
  }

  lemma FromBytes2(a: byte, b: byte)
    ensures FromBytes([a, b]) == a + 256 * b
  {
    assert [a, b][1..] == [b];
    FromBytes1(b);
  }

  lemma FromBytes4(a: byte, b: byte, c: byte, d: byte)
    ensures FromBytes([a, b, c, d]) == a + 256 * b + 65536 * c + 16777216 * d
  {
    assert [a, b, c, d][1..] == [b, c, d] && [b, c, d][1..] == [c, d];
    FromBytes2(c, d);
  }

  lemma ToBytes1(v: nat)
    ensures ToBytes(v, 1) == [v % 256]
  {
    assert ToBytes(v / 256, 0) == [];
  }

  lemma ToBytes2(v: nat)
    ensures ToBytes(v, 2) == [v % 256, v / 256 % 256]
  {
    ToBytes1(v / 256);
  }

  lemma ToBytes4(v: nat)
    ensures ToBytes(v, 4) == [v % 256, v / 256 % 256, v / 65536 % 256, v / 16777216 % 256]
  {
    ToBytes2(v / 65536);
    assert ToBytes(v / 256, 3) == [v / 256 % 256] + ToBytes(v / 256 / 256, 2);
    assert v / 256 / 256 == v / 65536 && v / 65536 / 256 == v / 16777216;
  }
}
