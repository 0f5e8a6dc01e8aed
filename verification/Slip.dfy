/**
 SLIP framing of the flash programmer (RFC 1055, section "PROTOCOL"): encoding a
 message, and reading packets one call at a time from a byte stream.
 */
module Slip {
  import opened GuestMemory

  const END: byte := 0xC0
  const ESC: byte := 0xDB
  const ESC_END: byte := 0xDC
  const ESC_ESC: byte := 0xDD

  /** ---- Encoding ---- */

  function EscapeByte(b: byte): (bs: seq<byte>) {
    if b == END then [ESC, ESC_END] else if b == ESC then [ESC, ESC_ESC] else [b]
  }

  function Escape(msg: seq<byte>): (bs: seq<byte>)
    ensures |msg| <= |bs| <= 2 * |msg|
  {
    if msg == [] then [] else EscapeByte(msg[0]) + Escape(msg[1..])
  }

  function Frame(body: seq<byte>): (bs: seq<byte>) { [END] + body + [END] }

  /** The two characters of RFC 1055 that must not be sent as they are. */
  lemma FrameExample()
    ensures Frame(Escape([0xC0, 0xDB, 0x41])) == [0xC0, 0xDB, 0xDC, 0xDB, 0xDD, 0x41, 0xC0]
  {
    assert [0xC0, 0xDB, 0x41][1..] == [0xDB, 0x41] && [0xDB, 0x41][1..] == [0x41] && [0x41][1..] == [];
  }

  /** The body of a frame never holds an END. */
  lemma {:induction false} NoEndInside(msg: seq<byte>)
    ensures 0xC0 !in Escape(msg)
  {
    if msg != [] { NoEndInside(msg[1..]); }
  }

  lemma {:induction false} EscapeSnoc(msg: seq<byte>, b: byte)
    ensures Escape(msg + [b]) == Escape(msg) + EscapeByte(b)
  {
    hide EscapeByte;
    if msg == [] {
      assert msg + [b] == [b] && [b][1..] == [];
    } else {
      assert (msg + [b])[1..] == msg[1..] + [b];
      EscapeSnoc(msg[1..], b);
    }
  }

  lemma {:induction false} EscapePrefix(msg: seq<byte>, i: nat)
    requires i <= |msg|
    ensures |Escape(msg[..i])| + (|msg| - i) <= |Escape(msg)|
    decreases |msg| - i
  {
    if i == |msg| {
      assert msg[..i] == msg;
    } else {
      EscapePrefix(msg, i + 1);
      assert msg[..i + 1] == msg[..i] + [msg[i]];
      EscapeSnoc(msg[..i], msg[i]);
    }
  }

  /** slip_encode: the frame, or 0 exactly when the buffer is too small for it. */
  method Encode(src: seq<byte>, dst: array<byte>) returns (out: nat)
    modifies dst
    ensures out == 0 <==> |Frame(Escape(src))| > dst.Length
    ensures out <= 2 * |src| + 2 && out <= dst.Length && (out != 0 ==> dst[..out] == Frame(Escape(src)))
  {
    hide Escape, EscapeByte;
    EscapePrefix(src, 0);
    EscapeNothing();
    if dst.Length < 2 { return 0; }
    dst[0] := END;
    out := 1;
    var i := 0;
    while i < |src|
      invariant 0 <= i <= |src| && out == 1 + |Escape(src[..i])| < dst.Length
      invariant dst[..out] == [END] + Escape(src[..i])
    {
      EscapePrefix(src, i + 1);
      assert src[..i + 1] == src[..i] + [src[i]];
      EscapeSnoc(src[..i], src[i]);
      out := PutByte(dst, out, src[i]);
      if out == 0 { return 0; }
      i := i + 1;
    }
    assert src[..i] == src;
    ghost var was := dst[..out];
    dst[out] := END;
    assert dst[..out + 1] == was + [END];
    out := out + 1;
  }

  /** One byte of the loop; 0 when it does not leave room for the closing END. */
  method PutByte(dst: array<byte>, at: nat, b: byte) returns (out: nat)
    requires at < dst.Length
    modifies dst
    ensures out == if at + |EscapeByte(b)| >= dst.Length then 0 else at + |EscapeByte(b)|
    ensures out != 0 ==> dst[..out] == old(dst[..at]) + EscapeByte(b)
  {
    hide EscapeByte;
    EscapeOne(b);
    out := at;
    if b == END || b == ESC {
      if out + 2 >= dst.Length { return 0; }
      dst[out] := ESC;
      dst[out + 1] := if b == END then ESC_END else ESC_ESC;
      out := out + 2;
    } else {
      if out + 1 >= dst.Length { return 0; }
      dst[out] := b;
      out := out + 1;
    }
  }

  lemma EscapeNothing()
    ensures Escape([]) == []
  {
  }

  lemma EscapeOne(b: byte)
    ensures EscapeByte(b) == if b == END then [ESC, ESC_END] else if b == ESC then [ESC, ESC_ESC] else [b]
  {
  }

  /** ---- Decoding ---- */

  /** The local state of read_slip_packet; `buf` is what it has stored. */
  datatype Decoder = Decoder(inPacket: bool, escaped: bool, buf: seq<byte>)

  const FRESH := Decoder(false, false, [])
  const OPEN := Decoder(true, false, [])
  const STUCK := Decoder(true, true, [])

  datatype Outcome = More(dec: Decoder) | Packet(buf: seq<byte>)

  /** One byte; `size` is the room in the caller's buffer. */
  function Accept(d: Decoder, b: byte, size: nat): (o: Outcome) {
    if b == END then
      if !d.inPacket then More(OPEN) else if d.buf == [] then More(d) else Packet(d.buf)
    else if !d.inPacket then More(d)
    else if d.escaped then
      if b == ESC_END then Keep(d, END, size) else if b == ESC_ESC then Keep(d, ESC, size) else More(FRESH)
    else if b == ESC then More(d.(escaped := true))
    else Keep(d, b, size)
  }

  function Keep(d: Decoder, b: byte, size: nat): (o: Outcome) {
    if |d.buf| >= size then More(FRESH) else More(Decoder(true, false, d.buf + [b]))
  }

  /** The packets that successive calls return. */
  function Decode(d: Decoder, input: seq<byte>, size: nat): (packets: seq<seq<byte>>)
    decreases |input|
  {
    if input == [] then [] else
      match Accept(d, input[0], size)
      case More(e) => Decode(e, input[1..], size)
      case Packet(p) => [p] + Decode(FRESH, input[1..], size)
  }

  /** read_slip_packet: the next packet, or a timeout when the bytes run out. */
  method ReadPacket(dst: array<byte>, input: seq<byte>, from: nat) returns (ok: bool, len: nat, next: nat)
    requires from <= |input|
    modifies dst
    ensures ok ==> len <= dst.Length && from <= next <= |input|
                   && Decode(FRESH, input[from..], dst.Length) ==
                        [dst[..len]] + Decode(FRESH, input[next..], dst.Length)
    ensures !ok ==> Decode(FRESH, input[from..], dst.Length) == []
  {
    var inPacket, escaped := false, false;
    len, next := 0, from;
    assert dst[..0] == [];
    while next < |input|
      invariant from <= next <= |input| && len <= dst.Length && (!inPacket ==> !escaped && len == 0)
      invariant Decode(FRESH, input[from..], dst.Length) ==
                  Decode(Decoder(inPacket, escaped, dst[..len]), input[next..], dst.Length)
    {
      var b := input[next];
      assert input[next..][0] == b && input[next..][1..] == input[next + 1..];
      ghost var d := Decoder(inPacket, escaped, dst[..len]);
      next := next + 1;
      if b == END {
        if !inPacket {
          inPacket, escaped, len := true, false, 0;
        } else if len != 0 {
          return true, len, next;
        }
        continue;
      }
      if !inPacket { continue; }
      var v := b;
      if escaped {
        if b == ESC_END {
          v := END;
        } else if b == ESC_ESC {
          v := ESC;
        } else {
          inPacket, escaped, len := false, false, 0;
          continue;
        }
        escaped := false;
      } else if b == ESC {
        escaped := true;
        continue;
      }
      if len >= dst.Length {
        inPacket, escaped, len := false, false, 0;
        continue;
      }
      ghost var was := dst[..len];
      dst[len] := v;
      assert dst[..len + 1] == was + [v];
      len := len + 1;
    }
    ok := false;
  }

  /** ---- Streams of frames ---- */

  predicate EndFree(bs: seq<byte>) { END !in bs }

  /** The decoder after bytes without END. */
  function After(d: Decoder, bs: seq<byte>, size: nat): (e: Decoder)
    requires EndFree(bs)
    decreases |bs|
  {
    if bs == [] then d else
      assert bs[0] != END && bs[0] in bs;
      After(Accept(d, bs[0], size).dec, bs[1..], size)
  }

  lemma {:induction false} RunBody(d: Decoder, bs: seq<byte>, rest: seq<byte>, size: nat)
    requires EndFree(bs)
    ensures Decode(d, bs + rest, size) == Decode(After(d, bs, size), rest, size)
    decreases |bs|
  {
    hide Accept;
    if bs == [] {
      assert bs + rest == rest;
    } else {
      assert (bs + rest)[0] == bs[0] && (bs + rest)[1..] == bs[1..] + rest;
      NoPacketInside(d, bs[0], size);
      RunBody(Accept(d, bs[0], size).dec, bs[1..], rest, size);
    }
  }

  lemma NoPacketInside(d: Decoder, b: byte, size: nat)
    requires b != END
    ensures Accept(d, b, size).More?
  {
  }

  /** What the next END completes. */
  function Completed(d: Decoder): (packets: seq<seq<byte>>)
    ensures |packets| <= 1
  {
    if d.inPacket && d.buf != [] then [d.buf] else []
  }

  /** What one frame delivers by itself: its message, or nothing. */
  function Delivered(body: seq<byte>, size: nat): (packets: seq<seq<byte>>)
    requires EndFree(body)
    ensures |packets| <= 1
  {
    Completed(After(OPEN, body, size))
  }

  function Stream(bodies: seq<seq<byte>>): (bs: seq<byte>) {
    if bodies == [] then [] else Frame(bodies[0]) + Stream(bodies[1..])
  }

  function AllDelivered(bodies: seq<seq<byte>>, size: nat): (packets: seq<seq<byte>>)
    requires forall i :: 0 <= i < |bodies| ==> EndFree(bodies[i])
  {
    if bodies == [] then [] else Delivered(bodies[0], size) + AllDelivered(bodies[1..], size)
  }

  /** The decoder between two frames. */
  predicate Between(d: Decoder) { d == FRESH || d == OPEN }

  predicate Sane(d: Decoder) { d.inPacket || d == FRESH }

  lemma {:induction false} AfterIsSane(d: Decoder, bs: seq<byte>, size: nat)
    requires EndFree(bs) && Sane(d)
    ensures Sane(After(d, bs, size))
    decreases |bs|
  {
    if bs != [] { AfterIsSane(Accept(d, bs[0], size).dec, bs[1..], size); }
  }

  /** Only the body that is a lone escape byte leaves its escape pending with nothing stored. */
  lemma PendingEscape(body: seq<byte>, size: nat)
    requires EndFree(body)
    ensures After(OPEN, body, size) == STUCK <==> body == [ESC]
  {
    if body != [] {
      var d := Accept(OPEN, body[0], size).dec;
      if body[0] != ESC {
        Sticky(d, body[1..], size);
      } else if |body| > 1 {
        Sticky(Accept(d, body[1], size).dec, body[1..][1..], size);
      } else {
        assert body == [ESC];
      }
    }
  }

  /** A packet that has stored something, or has been given up, never returns to an empty one. */
  lemma {:induction false} Sticky(d: Decoder, bs: seq<byte>, size: nat)
    requires EndFree(bs) && (d == FRESH || (d.inPacket && d.buf != []))
    ensures var e := After(d, bs, size); e == FRESH || (e.inPacket && e.buf != [])
    decreases |bs|
  {
    if bs != [] { Sticky(Accept(d, bs[0], size).dec, bs[1..], size); }
  }

  /** One frame in a stream: it delivers what it would by itself, and the next frame is read afresh. */
  lemma OneFrame(d: Decoder, body: seq<byte>, rest: seq<byte>, size: nat) returns (e: Decoder)
    requires Between(d) && EndFree(body) && body != [ESC]
    ensures Between(e) && Decode(d, Frame(body) + rest, size) == Delivered(body, size) + Decode(e, rest, size)
  {
    hide After;
    var all := Frame(body) + rest;
    assert all[0] == END && all[1..] == body + ([END] + rest);
    assert Decode(d, all, size) == Decode(OPEN, body + ([END] + rest), size);
    RunBody(OPEN, body, [END] + rest, size);
    AfterIsSane(OPEN, body, size);
    PendingEscape(body, size);
    var f := After(OPEN, body, size);
    assert ([END] + rest)[0] == END && ([END] + rest)[1..] == rest;
    e := if f.inPacket && f.buf != [] then FRESH else OPEN;
  }

  /** Two packets under way that differ only in what they have stored stay so. */
  lemma {:induction false} Parallel(d: Decoder, e: Decoder, bs: seq<byte>, size: nat)
    requires EndFree(bs) && d.inPacket && e.inPacket && d.escaped == e.escaped && |d.buf| == |e.buf| > 0
    ensures var f, g := After(d, bs, size), After(e, bs, size);
            || (f == g == FRESH)
            || (f.inPacket && g.inPacket && |f.buf| == |g.buf| > 0 && f.buf[0] == d.buf[0] && g.buf[0] == e.buf[0])
    decreases |bs|
  {
    if bs != [] {
      var f, g := Accept(d, bs[0], size).dec, Accept(e, bs[0], size).dec;
      if f == FRESH {
        OutsideStays(bs[1..], size);
      } else {
        Parallel(f, g, bs[1..], size);
      }
    }
  }

  /** What a decoder left over from a lone escape byte makes of the next body. */
  lemma StuckBody(body: seq<byte>, size: nat)
    requires EndFree(body)
    ensures var x := Completed(After(STUCK, body, size));
            && |x| <= |Delivered(body, size)|
            && (x == Delivered(body, size) <==> Delivered(body, size) == [])
  {
    if body != [] {
      var odd := Accept(STUCK, body[0], size).dec;
      var normal := Accept(OPEN, body[0], size).dec;
      if odd == FRESH {
        OutsideStays(body[1..], size);
      } else {
        Parallel(odd, normal, body[1..], size);
      }
    }
  }

  /** A frame read by a decoder that is stuck; an empty one leaves it stuck. */
  lemma StuckFrame(body: seq<byte>, rest: seq<byte>, size: nat) returns (e: Decoder)
    requires EndFree(body)
    ensures Decode(STUCK, Frame(body) + rest, size) == Completed(After(STUCK, body, size)) + Decode(e, rest, size)
    ensures if body == [] then e == STUCK else Between(e)
  {
    var all := Frame(body) + rest;
    assert all[0] == END && all[1..] == body + ([END] + rest);
    RunBody(STUCK, body, [END] + rest, size);
    var f := After(STUCK, body, size);
    assert ([END] + rest)[0] == END && ([END] + rest)[1..] == rest;
    if body != [] { Sticky(Accept(STUCK, body[0], size).dec, body[1..], size); }
    e := if body == [] then STUCK else if f.inPacket && f.buf != [] then FRESH else OPEN;
  }

  /** A lone escape byte delivers nothing and leaves the decoder stuck. */
  lemma LoneEscape(d: Decoder, rest: seq<byte>, size: nat)
    requires Between(d)
    ensures Decode(d, Frame([ESC]) + rest, size) == Decode(STUCK, rest, size)
    ensures EndFree([ESC]) && Delivered([ESC], size) == []
  {
    hide Decode;
    AfterOne(OPEN, ESC, size);
    var all := [END] + ([ESC] + ([END] + rest));
    assert Frame([ESC]) + rest == all;
    DecodeStep(d, END, [ESC] + ([END] + rest), size);
    DecodeStep(OPEN, ESC, [END] + rest, size);
    DecodeStep(STUCK, END, rest, size);
  }

  /** Every lone escape byte is followed, after any empty frames, by a frame that delivers nothing anyway. */
  predicate Unharmed(bodies: seq<seq<byte>>, size: nat, stuck: bool)
    requires forall i :: 0 <= i < |bodies| ==> EndFree(bodies[i])
  {
    bodies == [] ||
    if !stuck then Unharmed(bodies[1..], size, bodies[0] == [ESC])
    else if bodies[0] == [] then Unharmed(bodies[1..], size, true)
    else Delivered(bodies[0], size) == [] && Unharmed(bodies[1..], size, false)
  }

  /** Any stream of frames: each delivers what it would by itself if and only if no lone escape byte does harm. */
  lemma {:induction false} StreamIff(d: Decoder, bodies: seq<seq<byte>>, size: nat, stuck: bool)
    requires (if stuck then d == STUCK else Between(d)) && forall i :: 0 <= i < |bodies| ==> EndFree(bodies[i])
    ensures |Decode(d, Stream(bodies), size)| <= |AllDelivered(bodies, size)|
    ensures Decode(d, Stream(bodies), size) == AllDelivered(bodies, size) <==> Unharmed(bodies, size, stuck)
    decreases |bodies|
  {
    hide Accept, Delivered, Frame, EndFree, Completed, After, Between;
    if bodies != [] {
      var body, rest := bodies[0], Stream(bodies[1..]);
      if stuck {
        var e := StuckFrame(body, rest, size);
        StreamIff(e, bodies[1..], size, body == []);
        StuckBody(body, size);
        EmptyDelivers(size);
        HeadsDiffer(Completed(After(STUCK, body, size)), Decode(e, rest, size),
                    Delivered(body, size), AllDelivered(bodies[1..], size));
      } else if body == [ESC] {
        LoneEscape(d, rest, size);
        StreamIff(STUCK, bodies[1..], size, true);
      } else {
        var e := OneFrame(d, body, rest, size);
        StreamIff(e, bodies[1..], size, false);
        HeadsDiffer(Delivered(body, size), Decode(e, rest, size),
                    Delivered(body, size), AllDelivered(bodies[1..], size));
      }
    }
  }

  lemma EmptyDelivers(size: nat)
    ensures EndFree([]) && Delivered([], size) == []
  {
  }

  /** Lists that start with at most one packet each agree only if the starts do. */
  lemma HeadsDiffer<T>(x: seq<T>, a: seq<T>, y: seq<T>, b: seq<T>)
    requires |x| <= |y| <= 1 && |a| <= |b|
    ensures |x + a| <= |y + b|
    ensures x + a == y + b <==> x == y && a == b
  {
    if x + a == y + b {
      assert |x| == |y|;
      if |x| == 1 { assert (x + a)[0] == (y + b)[0]; }
      assert (x + a)[|x|..] == a && (y + b)[|y|..] == b;
    }
  }

  /** Without a lone escape byte nothing is harmed: a bad frame loses only itself. */
  lemma StreamDecodes(d: Decoder, bodies: seq<seq<byte>>, size: nat)
    requires Between(d) && forall i :: 0 <= i < |bodies| ==> EndFree(bodies[i]) && bodies[i] != [ESC]
    ensures Decode(d, Stream(bodies), size) == AllDelivered(bodies, size)
  {
    StreamIff(d, bodies, size, false);
    NoLoneEscape(bodies, size);
  }

  lemma {:induction false} NoLoneEscape(bodies: seq<seq<byte>>, size: nat)
    requires forall i :: 0 <= i < |bodies| ==> EndFree(bodies[i]) && bodies[i] != [ESC]
    ensures Unharmed(bodies, size, false)
    decreases |bodies|
  {
    hide EndFree;
    if bodies != [] { NoLoneEscape(bodies[1..], size); }
  }

  /** After a frame with a lone escape byte the next frame is read right exactly when it delivers nothing anyway. */
  lemma StuckEscapeIff(body: seq<byte>, size: nat)
    requires EndFree(body)
    ensures Decode(FRESH, Frame([ESC]) + Frame(body), size) == Delivered(body, size) <==> Delivered(body, size) == []
  {
    hide After, Delivered;
    var s := Frame([ESC]) + Frame(body);
    assert s[0] == END && s[1] == ESC && s[2] == END && s[3] == END && s[4..] == body + [END];
    assert s[1..][1..] == s[2..] && s[2..][1..] == s[3..] && s[3..][1..] == s[4..];
    assert Decode(FRESH, s, size) == Decode(OPEN, s[1..], size);
    assert Decode(OPEN, s[1..], size) == Decode(STUCK, s[2..], size);
    assert Decode(STUCK, s[2..], size) == Decode(STUCK, s[3..], size);
    assert Decode(STUCK, s[3..], size) == Decode(STUCK, s[4..], size);
    RunBody(STUCK, body, [END], size);
    StuckBody(body, size);
    LastEnd(After(STUCK, body, size), size);
  }

  lemma LastEnd(d: Decoder, size: nat)
    ensures Decode(d, [END], size) == Completed(d)
  {
    assert [END][1..] == [];
  }

  /** A lone escape byte in a frame takes the next frame with it. */
  lemma StuckEscapeExample()
    ensures Decode(FRESH, Stream([[ESC], [0x61]]), 128) == []
    ensures Delivered([0x61], 128) == [[0x61]]
  {
    hide Decode;
    var s4: seq<byte> := [0x61] + [END];
    var s1 := [ESC] + ([END] + ([END] + s4));
    TwoFrames(s1);
    DecodeStep(FRESH, END, s1, 128);
    DecodeStep(OPEN, ESC, [END] + ([END] + s4), 128);
    DecodeStep(STUCK, END, [END] + s4, 128);
    DecodeStep(STUCK, END, s4, 128);
    DecodeStep(STUCK, 0x61, [END], 128);
    LastEnd(FRESH, 128);
    AfterOne(OPEN, 0x61, 128);
    assert OPEN.buf + [0x61] == [0x61];
  }

  lemma TwoFrames(s1: seq<byte>)
    requires s1 == [ESC] + ([END] + ([END] + ([0x61] + [END])))
    ensures Stream([[ESC], [0x61]]) == [END] + s1
  {
    var bodies: seq<seq<byte>> := [[ESC], [0x61]];
    assert bodies[1..] == [[0x61]] && bodies[1..][1..] == [];
    assert Stream(bodies[1..][1..]) == [];
    assert Stream(bodies[1..]) == [END, 0x61, END];
  }

  lemma DecodeStep(d: Decoder, b: byte, rest: seq<byte>, size: nat)
    requires Accept(d, b, size).More?
    ensures Decode(d, [b] + rest, size) == Decode(Accept(d, b, size).dec, rest, size)
  {
    assert ([b] + rest)[1..] == rest;
  }

  lemma AfterOne(d: Decoder, b: byte, size: nat)
    requires b != END
    ensures EndFree([b]) && After(d, [b], size) == Accept(d, b, size).dec
  {
    assert [b][1..] == [];
  }

  /** ---- Round trip ---- */

  lemma {:induction false} EscapeEndFree(msg: seq<byte>)
    ensures EndFree(Escape(msg))
  {
    if msg != [] { EscapeEndFree(msg[1..]); }
  }

  lemma {:induction false} AfterJoin(d: Decoder, x: seq<byte>, y: seq<byte>, size: nat)
    requires EndFree(x) && EndFree(y)
    ensures EndFree(x + y) && After(d, x + y, size) == After(After(d, x, size), y, size)
    decreases |x|
  {
    hide Accept;
    if x == [] {
      assert x + y == y;
    } else {
      assert (x + y)[0] == x[0] && (x + y)[1..] == x[1..] + y;
      NoPacketInside(d, x[0], size);
      AfterJoin(Accept(d, x[0], size).dec, x[1..], y, size);
    }
  }

  lemma OneByte(d: Decoder, b: byte, size: nat)
    requires d.inPacket && !d.escaped
    ensures EndFree(EscapeByte(b)) && After(d, EscapeByte(b), size) == Keep(d, b, size).dec
  {
    if b == END || b == ESC {
      var c := if b == END then ESC_END else ESC_ESC;
      assert EscapeByte(b) == [ESC] + [c];
      AfterOne(d, ESC, size);
      AfterOne(d.(escaped := true), c, size);
      AfterJoin(d, [ESC], [c], size);
      assert d.(escaped := true).buf == d.buf;
    } else {
      AfterOne(d, b, size);
    }
  }

  lemma {:induction false} OutsideStays(bs: seq<byte>, size: nat)
    requires EndFree(bs)
    ensures After(FRESH, bs, size) == FRESH
    decreases |bs|
  {
    if bs != [] { OutsideStays(bs[1..], size); }
  }

  /** The escaped message comes back, if it fits; if not, it is dropped. */
  lemma {:induction false} MessageDecodes(buf: seq<byte>, msg: seq<byte>, size: nat)
    requires |buf| <= size
    ensures EndFree(Escape(msg))
    ensures After(Decoder(true, false, buf), Escape(msg), size)
            == if |buf| + |msg| <= size then Decoder(true, false, buf + msg) else FRESH
    decreases |msg|
  {
    hide After, EscapeByte, Accept, EndFree;
    EscapeEndFree(msg);
    if msg == [] {
      AfterNone(Decoder(true, false, buf), size);
      assert buf + msg == buf;
    } else {
      var d := Decoder(true, false, buf);
      EscapeEndFree(msg[1..]);
      OneByte(d, msg[0], size);
      AfterJoin(d, EscapeByte(msg[0]), Escape(msg[1..]), size);
      if |buf| < size {
        MessageDecodes(buf + [msg[0]], msg[1..], size);
        assert buf + msg == (buf + [msg[0]]) + msg[1..];
      } else {
        OutsideStays(Escape(msg[1..]), size);
      }
    }
  }

  lemma AfterNone(d: Decoder, size: nat)
    ensures EndFree([]) && After(d, [], size) == d
  {
  }

  /** The messages as the programmer sends them. */
  function Bodies(msgs: seq<seq<byte>>): (bodies: seq<seq<byte>>)
    ensures |bodies| == |msgs| && forall i :: 0 <= i < |msgs| ==> bodies[i] == Escape(msgs[i])
  {
    seq(|msgs|, i requires 0 <= i < |msgs| => Escape(msgs[i]))
  }

  /** The messages a receiver with `size` bytes of room can get: not empty, and not too long. */
  function Receivable(msgs: seq<seq<byte>>, size: nat): (rs: seq<seq<byte>>) {
    if msgs == [] then [] else
      (if msgs[0] != [] && |msgs[0]| <= size then [msgs[0]] else []) + Receivable(msgs[1..], size)
  }

  lemma {:induction false} AllReceived(msgs: seq<seq<byte>>, size: nat)
    ensures forall i :: 0 <= i < |msgs| ==> EndFree(Bodies(msgs)[i]) && Bodies(msgs)[i] != [ESC]
    ensures AllDelivered(Bodies(msgs), size) == Receivable(msgs, size)
    decreases |msgs|
  {
    hide EndFree, Escape, After;
    forall i | 0 <= i < |msgs| ensures EndFree(Bodies(msgs)[i]) && Bodies(msgs)[i] != [ESC] {
      EscapeEndFree(msgs[i]);
      NotLoneEscape(msgs[i]);
    }
    if msgs != [] {
      AllReceived(msgs[1..], size);
      assert Bodies(msgs)[1..] == Bodies(msgs[1..]);
      MessageDecodes([], msgs[0], size);
      assert [] + msgs[0] == msgs[0];
    }
  }

  lemma NotLoneEscape(msg: seq<byte>)
    ensures Escape(msg) != [ESC]
  {
    if msg != [] { assert Escape(msg)[0] == EscapeByte(msg[0])[0]; }
  }

  /** What was encoded is what is read, after any noise without END. */
  lemma RoundTrip(noise: seq<byte>, msgs: seq<seq<byte>>, size: nat)
    requires EndFree(noise)
    ensures Decode(FRESH, noise + Stream(Bodies(msgs)), size) == Receivable(msgs, size)
  {
    hide EndFree, Decode, After, Stream, AllDelivered, Receivable;
    RunBody(FRESH, noise, Stream(Bodies(msgs)), size);
    OutsideStays(noise, size);
    AllReceived(msgs, size);
    StreamDecodes(FRESH, Bodies(msgs), size);
  }
}
