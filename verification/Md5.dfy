/**
 Streaming MD5 (RFC 1321, sections 3.1 to 3.5): however a message is split into
 updates, the context depends on the message alone, and finishing hashes exactly
 the padded message.
 */
module Md5 {
  import opened GuestMemory
  import opened Arith

  const BLOCK: nat := 64
  const COUNT_WRAP: nat := 0x1_0000_0000_0000_0000

  /** ---- The compression function ---- */

  datatype Words = Words(a: bv32, b: bv32, c: bv32, d: bv32)

  const K: seq<bv32> := [
    0xd76aa478, 0xe8c7b756, 0x242070db, 0xc1bdceee, 0xf57c0faf, 0x4787c62a, 0xa8304613, 0xfd469501,
    0x698098d8, 0x8b44f7af, 0xffff5bb1, 0x895cd7be, 0x6b901122, 0xfd987193, 0xa679438e, 0x49b40821,
    0xf61e2562, 0xc040b340, 0x265e5a51, 0xe9b6c7aa, 0xd62f105d, 0x02441453, 0xd8a1e681, 0xe7d3fbc8,
    0x21e1cde6, 0xc33707d6, 0xf4d50d87, 0x455a14ed, 0xa9e3e905, 0xfcefa3f8, 0x676f02d9, 0x8d2a4c8a,
    0xfffa3942, 0x8771f681, 0x6d9d6122, 0xfde5380c, 0xa4beea44, 0x4bdecfa9, 0xf6bb4b60, 0xbebfbc70,
    0x289b7ec6, 0xeaa127fa, 0xd4ef3085, 0x04881d05, 0xd9d4d039, 0xe6db99e5, 0x1fa27cf8, 0xc4ac5665,
    0xf4292244, 0x432aff97, 0xab9423a7, 0xfc93a039, 0x655b59c3, 0x8f0ccc92, 0xffeff47d, 0x85845dd1,
    0x6fa87e4f, 0xfe2ce6e0, 0xa3014314, 0x4e0811a1, 0xf7537e82, 0xbd3af235, 0x2ad7d2bb, 0xeb86d391]

  /** The rotation of round `i`. */
  function Rotation(i: nat): (n: bv6)
    requires i < 64
    ensures n <= 32
  {
    if i < 16 then (match i % 4 case 0 => 7 case 1 => 12 case 2 => 17 case _ => 22)
    else if i < 32 then (match i % 4 case 0 => 5 case 1 => 9 case 2 => 14 case _ => 20)
    else if i < 48 then (match i % 4 case 0 => 4 case 1 => 11 case 2 => 16 case _ => 23)
    else (match i % 4 case 0 => 6 case 1 => 10 case 2 => 15 case _ => 21)
  }

  /** Rotate left. */
  function Rol(v: bv32, n: bv6): (r: bv32)
    requires n <= 32
  {
    (v << n) | (v >> (32 - n))
  }

  function Mix(i: nat, v: Words): (f: bv32) {
    if i < 16 then (v.b & v.c) | (!v.b & v.d)
    else if i < 32 then (v.d & v.b) | (!v.d & v.c)
    else if i < 48 then v.b ^ v.c ^ v.d
    else v.c ^ (v.b | !v.d)
  }

  function WordIndex(i: nat): (g: nat)
    ensures g < 16
  {
    if i < 16 then i else if i < 32 then (5 * i + 1) % 16 else if i < 48 then (3 * i + 5) % 16 else 7 * i % 16
  }

  /** Word `g` of a block, least significant byte first. */
  function BlockWord(block: seq<byte>, g: nat): (w: bv32)
    requires |block| == BLOCK && g < 16
  {
    (block[4 * g] as bv32) | (block[4 * g + 1] as bv32 << 8)
    | (block[4 * g + 2] as bv32 << 16) | (block[4 * g + 3] as bv32 << 24)
  }

  function Round(i: nat, v: Words, block: seq<byte>): (r: Words)
    requires i < 64 && |block| == BLOCK
  {
    Words(v.d, v.b + Rol(v.a + Mix(i, v) + K[i] + BlockWord(block, WordIndex(i)), Rotation(i)), v.b, v.c)
  }

  /** Rounds 0 to `n` - 1. */
  function Rounds(n: nat, v: Words, block: seq<byte>): (r: Words)
    requires n <= 64 && |block| == BLOCK
  {
    if n == 0 then v else Round(n - 1, Rounds(n - 1, v, block), block)
  }

  /** md5_transform. */
  function Transform(h: Words, block: seq<byte>): (r: Words)
    requires |block| == BLOCK
  {
    Sum(h, Rounds(64, h, block))
  }

  function Sum(h: Words, v: Words): (r: Words) { Words(h.a + v.a, h.b + v.b, h.c + v.c, h.d + v.d) }

  lemma RoundsStep(n: nat, v: Words, block: seq<byte>)
    requires n < 64 && |block| == BLOCK
    ensures Rounds(0, v, block) == v && Rounds(n + 1, v, block) == Round(n, Rounds(n, v, block), block)
  {
    hide Round;
  }

  const INIT := Words(0x67452301, 0xefcdab89, 0x98badcfe, 0x10325476)

  /** The blocks of `s`, compressed in order. */
  function Chain(h: Words, s: seq<byte>): (r: Words)
    requires |s| % BLOCK == 0
    decreases |s|
  {
    if s == [] then h else Chain(Transform(h, s[..BLOCK]), s[BLOCK..])
  }

  lemma {:induction false} ChainSnoc(h: Words, s: seq<byte>, block: seq<byte>)
    requires |s| % BLOCK == 0 && |block| == BLOCK
    ensures Chain(h, s + block) == Transform(Chain(h, s), block)
    decreases |s|
  {
    hide Transform;
    if s == [] {
      assert s + block == block && block[..BLOCK] == block && block[BLOCK..] == [];
    } else {
      assert (s + block)[..BLOCK] == s[..BLOCK] && (s + block)[BLOCK..] == s[BLOCK..] + block;
      ChainSnoc(Transform(h, s[..BLOCK]), s[BLOCK..], block);
    }
  }

  /** ---- The specification ---- */

  function Whole(n: nat): (w: nat)
    ensures w <= n && w % BLOCK == 0 && n - w < BLOCK
  {
    n / BLOCK * BLOCK
  }

  /** The zero bytes that bring a message and its 1 bit to 56 modulo 64. */
  function Zeros(n: nat): (z: nat) { (119 - n % BLOCK) % BLOCK }

  lemma ZerosFit(n: nat)
    ensures Zeros(n) == (if n % BLOCK < 56 then 55 else 119) - n % BLOCK
    ensures (n + 1 + Zeros(n) + 8) % BLOCK == 0
  {
    var q, u := n / BLOCK, n % BLOCK;
    assert Zeros(n) == if u < 56 then 55 - u else 119 - u;
    DivModUnique(n + 1 + Zeros(n) + 8, BLOCK, if u < 56 then q + 1 else q + 2, 0);
  }

  /** What padding appends before the bit count. */
  function Pad(n: nat): (p: seq<byte>)
    ensures |p| == 1 + Zeros(n)
  {
    [0x80] + seq(Zeros(n), _ => 0)
  }

  function BitCount(n: nat): (bs: seq<byte>)
    ensures |bs| == 8
  {
    ToBytes(n * 8 % COUNT_WRAP, 8)
  }

  /** RFC 1321, sections 3.1 and 3.2: a 1 bit, zeros up to 56 modulo 64 bytes, and the bit count in 64 bits. */
  function Padded(msg: seq<byte>): (p: seq<byte>)
    ensures |p| % BLOCK == 0
  {
    ZerosFit(|msg|);
    msg + Pad(|msg|) + BitCount(|msg|)
  }

  function WordBytes(w: bv32): (bs: seq<bv8>)
    ensures |bs| == 4
  {
    [(w & 0xff) as bv8, ((w >> 8) & 0xff) as bv8, ((w >> 16) & 0xff) as bv8, ((w >> 24) & 0xff) as bv8]
  }

  /** The digest of a message: its padded blocks, compressed from the initial state. */
  function Digest(msg: seq<byte>): (out: seq<bv8>)
    ensures |out| == 16
  {
    var h := Chain(INIT, Padded(msg));
    WordBytes(h.a) + WordBytes(h.b) + WordBytes(h.c) + WordBytes(h.d)
  }

  /** ---- The streaming context ---- */

  /** Block state and buffer after absorbing `msg`. */
  ghost predicate Absorbed(h: Words, held: seq<byte>, msg: seq<byte>) {
    h == Chain(INIT, msg[..Whole(|msg|)]) && held == msg[Whole(|msg|)..]
  }

  lemma AbsorbedNothing()
    ensures Absorbed(INIT, [], [])
  {
  }

  lemma AbsorbedLength(h: Words, held: seq<byte>, msg: seq<byte>)
    requires Absorbed(h, held, msg)
    ensures |held| == |msg| % BLOCK
  {
    hide Chain;
  }

  /** Bytes that leave the buffer short of a block. */
  lemma AbsorbShort(h: Words, held: seq<byte>, msg: seq<byte>, x: seq<byte>)
    requires Absorbed(h, held, msg) && |held| + |x| < BLOCK
    ensures Absorbed(h, held + x, msg + x)
  {
    hide Chain;
    var w := Whole(|msg|);
    SameWhole(|msg|, |x|);
    assert (msg + x)[..w] == msg[..w] && (msg + x)[w..] == msg[w..] + x;
  }

  /** Bytes that complete a block. */
  lemma AbsorbBlock(h: Words, held: seq<byte>, msg: seq<byte>, x: seq<byte>)
    requires Absorbed(h, held, msg) && |held| + |x| == BLOCK
    ensures Absorbed(Transform(h, held + x), [], msg + x)
  {
    hide Chain, Transform;
    var w := Whole(|msg|);
    NextWhole(|msg|, |x|);
    assert msg[..w] + (held + x) == msg + x;
    ChainSnoc(INIT, msg[..w], held + x);
    assert (msg + x)[..Whole(|msg + x|)] == msg + x;
  }

  lemma SameWhole(n: nat, k: nat)
    requires n - Whole(n) + k < BLOCK
    ensures Whole(n + k) == Whole(n)
  {
  }

  lemma NextWhole(n: nat, k: nat)
    requires n - Whole(n) + k == BLOCK
    ensures Whole(n + k) == n + k
  {
  }

  function Join(parts: seq<seq<byte>>): (msg: seq<byte>) {
    if parts == [] then [] else parts[0] + Join(parts[1..])
  }

  class Context {
    var h: Words
    var bytes: nat               // 64 bits
    const block: array<byte>
    var used: nat

    /** All that a context remembers of the message, and it remembers nothing else. */
    ghost predicate Holds(msg: seq<byte>)
      reads this, block
    {
      block.Length == BLOCK && used < BLOCK && bytes == |msg| % COUNT_WRAP && Absorbed(h, block[..used], msg)
    }

    /** md5_init. */
    constructor ()
      ensures Holds([]) && fresh(block)
    {
      hide Absorbed, Transform;
      h, bytes, used := INIT, 0, 0;
      block := new byte[BLOCK](_ => 0);
      new;
      AbsorbedNothing();
      assert block[..0] == [];
    }

    /** md5_transform of the buffer. */
    method Compress()
      requires block.Length == BLOCK
      modifies `h
      ensures h == Transform(old(h), block[..])
    {
      hide Round, Rounds, Sum;
      var b := block[..];
      var v := h;
      var i := 0;
      RoundsStep(0, v, b);
      while i < 64
        invariant 0 <= i <= 64 && v == Rounds(i, old(h), b) && h == old(h)
      {
        RoundsStep(i, old(h), b);
        v := Round(i, v, b);
        i := i + 1;
      }
      h := Sum(h, v);
    }

    /** md5_update. */
    method Update(data: seq<byte>, ghost msg: seq<byte>)
      requires Holds(msg)
      modifies this, block
      ensures Holds(msg + data)
    {
      hide Absorbed, Transform;
      bytes := (bytes + |data|) % COUNT_WRAP;
      CountAdd(|msg|, |data|);
      var pos := 0;
      assert msg + data[..0] == msg;
      while pos < |data|
        invariant 0 <= pos <= |data| && used < BLOCK && bytes == |msg + data| % COUNT_WRAP
        invariant Absorbed(h, block[..used], msg + data[..pos])
      {
        var n := BLOCK - used;
        if n > |data| - pos { n := |data| - pos; }
        ghost var held, x := block[..used], data[pos..pos + n];
        assert (msg + data[..pos]) + x == msg + data[..pos + n];
        WriteBytes(block, used, data[pos..pos + n]);
        assert block[..used + n] == held + x;
        used, pos := used + n, pos + n;
        if used == BLOCK {
          assert block[..] == held + x;
          AbsorbBlock(h, held, msg + data[..pos - n], x);
          Compress();
          used := 0;
          assert block[..0] == [];
        } else {
          AbsorbShort(h, held, msg + data[..pos - n], x);
        }
      }
      assert data[..pos] == data;
    }

    /** Any way of splitting a message leaves the context of the whole message. */
    method UpdateAll(parts: seq<seq<byte>>, ghost msg: seq<byte>)
      requires Holds(msg)
      modifies this, block
      ensures Holds(msg + Join(parts))
      decreases |parts|
    {
      hide Absorbed;
      if parts == [] {
        assert msg + [] == msg;
        return;
      }
      Update(parts[0], msg);
      UpdateAll(parts[1..], msg + parts[0]);
      assert (msg + parts[0]) + Join(parts[1..]) == msg + Join(parts);
    }

    /** md5_final: the digest of the padded message, and an empty buffer again. */
    method Final(ghost msg: seq<byte>) returns (out: seq<bv8>)
      requires Holds(msg)
      modifies this, block
      ensures out == Digest(msg) && used == 0 && Holds(Padded(msg))
    {
      hide Absorbed, Chain, Transform, BitCount;
      AbsorbedLength(h, block[..used], msg);
      ZerosFit(|msg|);
      var bits := bytes * 8 % COUNT_WRAP;
      CountTimesEight(|msg|);
      var pad := new byte[72](i => if i == 0 then 0x80 else 0);
      var padLen := if used < 56 then 56 - used else 120 - used;
      assert pad[..padLen] == Pad(|msg|);
      Update(pad[..padLen], msg);
      var lenbuf := ToBytes(bits, 8);
      assert lenbuf == BitCount(|msg|) by { CountBytes(|msg|, bits); }
      Update(lenbuf, msg + Pad(|msg|));
      AbsorbedLength(h, block[..used], Padded(msg));
      FinalState(h, block[..used], Padded(msg));
      out := WordBytes(h.a) + WordBytes(h.b) + WordBytes(h.c) + WordBytes(h.d);
    }
  }

  lemma CountAdd(n: nat, k: nat)
    ensures (n % COUNT_WRAP + k) % COUNT_WRAP == (n + k) % COUNT_WRAP
  {
    var q, r := n / COUNT_WRAP, n % COUNT_WRAP;
    DivModUnique(n + k, COUNT_WRAP, q + (r + k) / COUNT_WRAP, (r + k) % COUNT_WRAP);
  }

  lemma CountTimesEight(n: nat)
    ensures n % COUNT_WRAP * 8 % COUNT_WRAP == n * 8 % COUNT_WRAP
  {
    var q, r := n / COUNT_WRAP, n % COUNT_WRAP;
    DivModUnique(n * 8, COUNT_WRAP, q * 8 + r * 8 / COUNT_WRAP, r * 8 % COUNT_WRAP);
  }

  lemma CountBytes(n: nat, bits: nat)
    requires bits == n * 8 % COUNT_WRAP
    ensures ToBytes(bits, 8) == BitCount(n)
  {
  }

  lemma FinalState(h: Words, held: seq<byte>, p: seq<byte>)
    requires Absorbed(h, held, p) && |p| % BLOCK == 0
    ensures h == Chain(INIT, p)
  {
    hide Chain;
    assert p[..Whole(|p|)] == p;
  }
}
