/**
 The native block primitives: memcpy, memmove and memcmp with a 32-bit fast path
 for equally aligned operands.  Host memory is one byte array and an address is
 an index into it.
 */
module WordMove {
  import opened GuestMemory

  /** Copying one byte after the other, lowest address first, whatever overlaps. */
  function ForwardCopy<T>(m: seq<T>, d: nat, s: nat, n: nat): (r: seq<T>)
    requires d + n <= |m| && s + n <= |m|
    ensures |r| == |m|
  {
    if n == 0 then m
    else
      var r := ForwardCopy(m, d, s, n - 1);
      r[d + n - 1 := r[s + n - 1]]
  }

  /** A forward copy touches nothing outside the destination. */
  lemma {:induction false} ForwardCopyFrame<T>(m: seq<T>, d: nat, s: nat, n: nat, i: nat)
    requires d + n <= |m| && s + n <= |m| && i < |m| && !(d <= i < d + n)
    ensures ForwardCopy(m, d, s, n)[i] == m[i]
  {
    if n > 0 { ForwardCopyFrame(m, d, s, n - 1, i); }
  }

  /** It is a snapshot copy unless the destination starts inside the source. */
  lemma {:induction false} ForwardCopyIsSnapshot<T>(m: seq<T>, d: nat, s: nat, n: nat)
    requires d + n <= |m| && s + n <= |m| && (d <= s || s + n <= d)
    ensures ForwardCopy(m, d, s, n) == Splice(m, d, m[s..s + n])
  {
    if n > 0 {
      ForwardCopyIsSnapshot(m, d, s, n - 1);
      ForwardCopyFrame(m, d, s, n - 1, s + n - 1);
    }
  }

  /** Otherwise it repeats the bytes from `s` up to `d` all the way. */
  lemma {:induction false} ForwardCopyRepeats(m: seq<byte>, d: nat, s: nat, n: nat, i: nat)
    requires d + n <= |m| && s + n <= |m| && s < d && i < n
    ensures ForwardCopy(m, d, s, n)[d + i] == ForwardCopy(m, d, s, n)[s + i]
  {
    if i < n - 1 { ForwardCopyRepeats(m, d, s, n - 1, i); }
  }

  lemma ByteStep<T>(m: seq<T>, d: nat, s: nat, k: nat)
    requires d + k + 1 <= |m| && s + k + 1 <= |m|
    ensures var r := ForwardCopy(m, d, s, k);
            ForwardCopy(m, d, s, k + 1) == r[d + k := r[s + k]]
  {
  }

  /** Four bytes moved as one word are four bytes moved singly, at distance 0 or at least 4. */
  lemma WordStep(m: seq<byte>, d: nat, s: nat, k: nat)
    requires d + k + 4 <= |m| && s + k + 4 <= |m|
    requires d == s || d + 4 <= s || s + 4 <= d
    ensures var r := ForwardCopy(m, d, s, k);
            ForwardCopy(m, d, s, k + 4) == Splice(r, d + k, r[s + k..s + k + 4])
  {
    var r := ForwardCopy(m, d, s, k);
    var r1 := r[d + k := r[s + k]];
    var r2 := r1[d + k + 1 := r1[s + k + 1]];
    var r3 := r2[d + k + 2 := r2[s + k + 2]];
    assert ForwardCopy(m, d, s, k + 1) == r1;
    assert ForwardCopy(m, d, s, k + 2) == r2;
    assert ForwardCopy(m, d, s, k + 3) == r3;
    assert ForwardCopy(m, d, s, k + 4) == r3[d + k + 3 := r3[s + k + 3]];
  }

  method LoadWord(a: array<byte>, p: nat) returns (w: seq<byte>)
    requires p + 4 <= a.Length
    ensures w == a[p..p + 4]
  {
    w := [a[p], a[p + 1], a[p + 2], a[p + 3]];
  }

  method StoreWord(a: array<byte>, p: nat, w: seq<byte>)
    requires p + 4 <= a.Length && |w| == 4
    modifies a
    ensures a[..] == Splice(old(a[..]), p, w)
  {
    a[p], a[p + 1], a[p + 2], a[p + 3] := w[0], w[1], w[2], w[3];
  }

  /** Bytes `n - len` up to `n - rest` of a forward copy. */
  method BytesUp(mem: array<byte>, ghost m: seq<byte>, dst: nat, src: nat, n: nat, len: nat, rest: nat)
    requires dst + n <= mem.Length && src + n <= mem.Length && rest <= len <= n && |m| == mem.Length
    requires mem[..] == ForwardCopy(m, dst, src, n - len)
    modifies mem
    ensures mem[..] == ForwardCopy(m, dst, src, n - rest)
  {
    hide ForwardCopy;
    var left := len;
    while left > rest
      invariant rest <= left <= len
      invariant mem[..] == ForwardCopy(m, dst, src, n - left)
    {
      ByteStep(m, dst, src, n - left);
      mem[dst + n - left] := mem[src + n - left];
      left := left - 1;
    }
  }

  method WordsUp(mem: array<byte>, ghost m: seq<byte>, dst: nat, src: nat, n: nat, len: nat, words: nat)
    requires dst + n <= mem.Length && src + n <= mem.Length && 4 * words <= len <= n && |m| == mem.Length
    requires dst == src || dst + 4 <= src || src + 4 <= dst
    requires mem[..] == ForwardCopy(m, dst, src, n - len)
    modifies mem
    ensures mem[..] == ForwardCopy(m, dst, src, n - (len - 4 * words))
  {
    hide ForwardCopy;
    var left, n32 := len, words;
    while n32 > 0
      invariant 0 <= n32 <= words && left == len - 4 * words + 4 * n32
      invariant mem[..] == ForwardCopy(m, dst, src, n - left)
    {
      WordStep(m, dst, src, n - left);
      var w := LoadWord(mem, src + n - left);
      StoreWord(mem, dst + n - left, w);
      left, n32 := left - 4, n32 - 1;
    }
  }

  /** How many bytes come before the first aligned one. */
  function Head(a: nat, len: nat): (h: nat)
    ensures h <= len
  {
    var h := (4 - a % 4) % 4;
    if h < len then h else len
  }

  lemma SameAlignment(a: nat, b: nat)
    requires a % 4 == b % 4
    ensures a == b || a + 4 <= b || b + 4 <= a
  {
  }

  /** dos_api_memcpy: byte head, word body, byte tail; bytes only if the alignments differ. */
  method MemCpy(mem: array<byte>, dst: nat, src: nat, n: nat)
    requires dst + n <= mem.Length && src + n <= mem.Length
    modifies mem
    ensures mem[..] == ForwardCopy(old(mem[..]), dst, src, n)
  {
    ghost var m := mem[..];
    var len := n;
    if dst % 4 == src % 4 {
      var rest := len - Head(dst, len);
      BytesUp(mem, m, dst, src, n, len, rest);
      len := rest;
      if len >= 4 {
        SameAlignment(dst, src);
        WordsUp(mem, m, dst, src, n, len, len / 4);
        len := len % 4;
      }
    }
    BytesUp(mem, m, dst, src, n, len, 0);
  }

  function Repeated(v: byte, n: nat): (bs: seq<byte>)
    ensures |bs| == n
  {
    seq(n, _ => v)
  }

  lemma RepeatedGrows(m: seq<byte>, d: nat, v: byte, k: nat, n: nat)
    requires d + k + n <= |m|
    ensures Splice(Splice(m, d, Repeated(v, k)), d + k, Repeated(v, n)) == Splice(m, d, Repeated(v, k + n))
  {
  }

  /** The fill byte in all four places of a word. */
  lemma FillWord(v: byte)
    ensures ToBytes(v + 256 * v + 65536 * (v + 256 * v), 4) == Repeated(v, 4)
  {
    FromBytes4(v, v, v, v);
    ToFromBytes([v, v, v, v]);
  }

  method BytesSet(mem: array<byte>, ghost m: seq<byte>, dst: nat, v: byte, n: nat, len: nat, rest: nat)
    requires dst + n <= mem.Length && rest <= len <= n && |m| == mem.Length
    requires mem[..] == Splice(m, dst, Repeated(v, n - len))
    modifies mem
    ensures mem[..] == Splice(m, dst, Repeated(v, n - rest))
  {
    hide Splice, Repeated;
    var left := len;
    while left > rest
      invariant rest <= left <= len && mem[..] == Splice(m, dst, Repeated(v, n - left))
    {
      RepeatedGrows(m, dst, v, n - left, 1);
      SpliceOne(mem[..], dst + n - left, v);
      mem[dst + n - left] := v;
      left := left - 1;
    }
  }

  lemma SpliceOne(m: seq<byte>, a: nat, v: byte)
    requires a < |m|
    ensures Splice(m, a, Repeated(v, 1)) == m[a := v]
  {
  }

  /** nf_memset: byte head, words of four fill bytes, byte tail. */
  method MemSet(mem: array<byte>, dst: nat, value: int, n: nat)
    requires dst + n <= mem.Length
    modifies mem
    ensures mem[..] == Splice(old(mem[..]), dst, Repeated(value % 256, n))
  {
    hide Splice, Repeated;
    ghost var m := mem[..];
    var v: byte, len := value % 256, n;
    SpliceNothing(m, dst, Repeated(v, 0));
    var rest := len - Head(dst, len);
    BytesSet(mem, m, dst, v, n, len, rest);
    len := rest;
    if len >= 4 {
      var v32 := v + 256 * v;
      v32 := v32 + 65536 * v32;
      FillWord(v);
      var n32 := len / 4;
      while n32 > 0
        invariant 0 <= n32 <= len / 4
        invariant mem[..] == Splice(m, dst, Repeated(v, n - len % 4 - 4 * n32))
      {
        RepeatedGrows(m, dst, v, n - len % 4 - 4 * n32, 4);
        StoreWord(mem, dst + n - len % 4 - 4 * n32, ToBytes(v32, 4));
        n32 := n32 - 1;
      }
      len := len % 4;
    }
    BytesSet(mem, m, dst, v, n, len, 0);
  }

  /** A backward copy with its first `left` bytes still to do. */
  ghost function Down(m: seq<byte>, dst: nat, src: nat, n: nat, left: nat): (r: seq<byte>)
    requires dst + n <= |m| && src + n <= |m| && left <= n
    ensures |r| == |m|
  {
    Splice(m, dst + left, m[src + left..src + n])
  }

  lemma DownStep(m: seq<byte>, dst: nat, src: nat, n: nat, left: nat, k: nat)
    requires dst + n <= |m| && src < dst && k <= left <= n
    ensures var now := Down(m, dst, src, n, left);
            Splice(now, dst + left - k, now[src + left - k..src + left]) == Down(m, dst, src, n, left - k)
  {
    var now := Down(m, dst, src, n, left);
    assert now[src + left - k..src + left] == m[src + left - k..src + left];
  }

  method BytesDown(mem: array<byte>, ghost m: seq<byte>, dst: nat, src: nat, n: nat, len: nat, rest: nat)
    requires dst + n <= mem.Length && src < dst && rest <= len <= n && |m| == mem.Length
    requires mem[..] == Down(m, dst, src, n, len)
    modifies mem
    ensures mem[..] == Down(m, dst, src, n, rest)
  {
    hide Down;
    var left := len;
    while left > rest
      invariant rest <= left <= len
      invariant mem[..] == Down(m, dst, src, n, left)
    {
      DownStep(m, dst, src, n, left, 1);
      ghost var now := mem[..];
      left := left - 1;
      mem[dst + left] := mem[src + left];
      assert mem[..] == Splice(now, dst + left, now[src + left..src + left + 1]);
    }
  }

  method WordsDown(mem: array<byte>, ghost m: seq<byte>, dst: nat, src: nat, n: nat, len: nat, words: nat)
    requires dst + n <= mem.Length && src < dst && 4 * words <= len <= n && |m| == mem.Length
    requires mem[..] == Down(m, dst, src, n, len)
    modifies mem
    ensures mem[..] == Down(m, dst, src, n, len - 4 * words)
  {
    hide Down;
    var left, n32 := len, words;
    while n32 > 0
      invariant 0 <= n32 <= words && left == len - 4 * words + 4 * n32
      invariant mem[..] == Down(m, dst, src, n, left)
    {
      DownStep(m, dst, src, n, left, 4);
      left, n32 := left - 4, n32 - 1;
      var w := LoadWord(mem, src + left);
      StoreWord(mem, dst + left, w);
    }
  }

  /**
   dos_api_memmove: for every overlap, length and alignment the destination
   receives the old source bytes and nothing else changes.
   */
  method MemMove(mem: array<byte>, dst: nat, src: nat, n: nat)
    requires dst + n <= mem.Length && src + n <= mem.Length
    modifies mem
    ensures mem[..] == Splice(old(mem[..]), dst, old(mem[src..src + n]))
  {
    ghost var m := mem[..];
    assert m[src..src + n] == mem[src..src + n];
    if n == 0 || dst == src {
      assert mem[..] == Splice(m, dst, m[src..src + n]);
      return;
    }
    if dst < src || dst - src >= n {
      MemCpy(mem, dst, src, n);
      ForwardCopyIsSnapshot(m, dst, src, n);
      return;
    }
    assert mem[..] == Down(m, dst, src, n, n);
    var len := n;
    if (dst + n) % 4 == (src + n) % 4 {
      var tail := (dst + n) % 4;
      var rest := if tail < len then len - tail else 0;
      BytesDown(mem, m, dst, src, n, len, rest);
      len := rest;
      if len >= 4 {
        WordsDown(mem, m, dst, src, n, len, len / 4);
        len := len % 4;
      }
    }
    BytesDown(mem, m, dst, src, n, len, 0);
  }

  /** The two blocks agree on their first `i` bytes. */
  ghost predicate SamePrefix(m: seq<byte>, a: nat, b: nat, i: nat)
    requires a + i <= |m| && b + i <= |m|
  {
    m[a..a + i] == m[b..b + i]
  }

  /** `r` is the difference of the first pair of unequal bytes. */
  ghost predicate FirstDifference(m: seq<byte>, a: nat, b: nat, n: nat, r: int)
    requires a + n <= |m| && b + n <= |m|
  {
    exists i :: 0 <= i < n && SamePrefix(m, a, b, i) && m[a + i] != m[b + i] && r == m[a + i] as int - m[b + i] as int
  }

  /**
   dos_api_memcmp: 0 exactly for equal blocks, otherwise the difference of the
   first pair of unequal unsigned bytes.
   */
  method MemCmp(mem: array<byte>, a: nat, b: nat, n: nat) returns (r: int)
    requires a + n <= mem.Length && b + n <= mem.Length
    ensures r == 0 <==> mem[a..a + n] == mem[b..b + n]
    ensures r != 0 ==> FirstDifference(mem[..], a, b, n, r)
  {
    hide FirstDifference, SamePrefix;
    PrefixEmpty(mem[..], a, b);
    var len := n;
    if a % 4 == b % 4 {
      var rest := len - Head(a, len);
      r, len := CompareBytes(mem, a, b, n, len, rest);
      if r != 0 { return; }
      len := CompareWords(mem, a, b, n, len);
    }
    r, len := CompareBytes(mem, a, b, n, len, 0);
    if r == 0 {
      PrefixWhole(mem, a, b, n);
    }
  }

  lemma PrefixEmpty(m: seq<byte>, a: nat, b: nat)
    requires a <= |m| && b <= |m|
    ensures SamePrefix(m, a, b, 0)
  {
  }

  lemma PrefixWhole(mem: array<byte>, a: nat, b: nat, n: nat)
    requires a + n <= mem.Length && b + n <= mem.Length && SamePrefix(mem[..], a, b, n)
    ensures mem[a..a + n] == mem[b..b + n]
  {
    assert mem[..][a..a + n] == mem[a..a + n] && mem[..][b..b + n] == mem[b..b + n];
  }

  method CompareBytes(mem: array<byte>, a: nat, b: nat, n: nat, len: nat, rest: nat) returns (r: int, left: nat)
    requires a + n <= mem.Length && b + n <= mem.Length && rest <= len <= n
    requires SamePrefix(mem[..], a, b, n - len)
    ensures r == 0 ==> left == rest && SamePrefix(mem[..], a, b, n - rest)
    ensures r != 0 ==> mem[a..a + n] != mem[b..b + n]
    ensures r != 0 ==> FirstDifference(mem[..], a, b, n, r)
  {
    hide SamePrefix;
    left := len;
    while left > rest
      invariant rest <= left <= len
      invariant SamePrefix(mem[..], a, b, n - left)
    {
      var x: int, y: int := mem[a + n - left], mem[b + n - left];
      if x != y {
        Unequal(mem[..], a, b, n, n - left);
        assert mem[..][a..a + n] == mem[a..a + n] && mem[..][b..b + n] == mem[b..b + n];
        return x - y, left;
      }
      PrefixGrows1(mem[..], a, b, n - left);
      left := left - 1;
    }
    r := 0;
  }

  method CompareWords(mem: array<byte>, a: nat, b: nat, n: nat, len: nat) returns (left: nat)
    requires a + n <= mem.Length && b + n <= mem.Length && len <= n
    requires SamePrefix(mem[..], a, b, n - len)
    ensures left <= len && SamePrefix(mem[..], a, b, n - left)
  {
    hide SamePrefix;
    left := len;
    while left >= 4
      invariant left <= len
      invariant SamePrefix(mem[..], a, b, n - left)
    {
      var x := LoadWord(mem, a + n - left);
      var y := LoadWord(mem, b + n - left);
      if x != y {
        break;
      }
      PrefixGrows(mem[..], a, b, n - left, 4);
      left := left - 4;
    }
  }

  lemma PrefixGrows(m: seq<byte>, a: nat, b: nat, i: nat, k: nat)
    requires a + i + k <= |m| && b + i + k <= |m| && SamePrefix(m, a, b, i)
    requires m[a + i..a + i + k] == m[b + i..b + i + k]
    ensures SamePrefix(m, a, b, i + k)
  {
    assert m[a..a + i + k] == m[a..a + i] + m[a + i..a + i + k];
    assert m[b..b + i + k] == m[b..b + i] + m[b + i..b + i + k];
  }

  lemma PrefixGrows1(m: seq<byte>, a: nat, b: nat, i: nat)
    requires a + i + 1 <= |m| && b + i + 1 <= |m| && SamePrefix(m, a, b, i) && m[a + i] == m[b + i]
    ensures SamePrefix(m, a, b, i + 1)
  {
    assert m[a + i..a + i + 1] == [m[a + i]] && m[b + i..b + i + 1] == [m[b + i]];
    PrefixGrows(m, a, b, i, 1);
  }

  lemma Unequal(m: seq<byte>, a: nat, b: nat, n: nat, i: nat)
    requires a + n <= |m| && b + n <= |m| && i < n && m[a + i] != m[b + i]
    ensures m[a..a + n] != m[b..b + n]
  {
    assert m[a..a + n][i] == m[a + i] && m[b..b + n][i] == m[b + i];
  }
}
