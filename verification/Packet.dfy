/** The byte loops of the frame codec and the typed packets they carry. */
module Packet {
  import opened Bytes
  import opened Framing

  const TYPE_TX_REQ: Byte := 0x10
  const TYPE_RX_IND: Byte := 0x90

  // Packed sizes. A packet's size counts its own two-byte length field, which never travels.
  const LEN_FIELD := 2
  const RX_PKT_SIZE := 14
  const TX_PKT_SIZE := 16

  /** A packet buffer: the length field (0 when it holds nothing) and the bytes after it. */
  class PacketBuffer {
    var len: U16
    const raw: array<Byte>

    constructor (capacity: nat)
      ensures fresh(raw) && raw.Length == capacity && len == 0
      ensures raw[..] == Zeros(capacity)
    {
      raw := new Byte[capacity](_ => 0);
      len := 0;
    }

    /** The bytes the packet carries, from its type byte on. */
    function Contents(): seq<Byte>
      requires LEN_FIELD <= len <= LEN_FIELD + raw.Length
      reads this, raw
    {
      raw[..len - LEN_FIELD]
    }
  }

  /** A payload pkt_decode hands on: a known type, and at least that type's fixed part. */
  predicate Acceptable(p: seq<Byte>) {
    && p != []
    && ((p[0] == TYPE_RX_IND && LEN_FIELD + |p| >= RX_PKT_SIZE)
        || (p[0] == TYPE_TX_REQ && LEN_FIELD + |p| >= TX_PKT_SIZE))
  }

  /** A receive indication as packet.h lays it out behind the length field. */
  function RxLayout(src: Address, rsv0: Byte, rsv1: Byte, options: Byte, data: seq<Byte>): seq<Byte> {
    [0x90] + src + [rsv0, rsv1, options] + data
  }

  /** A transmit request. */
  function TxLayout(id: Byte, to: Address, rsv0: Byte, rsv1: Byte, radius: Byte, options: Byte, data: seq<Byte>): seq<Byte> {
    [0x10, id] + to + [rsv0, rsv1, radius, options] + data
  }

  /** What pkt_decode hands on is exactly what has one of the two layouts, with any data, none included. */
  lemma {:induction false} AcceptableExactly(p: seq<Byte>)
    ensures Acceptable(p) <==>
            || (exists src, rsv0, rsv1, options, data :: p == RxLayout(src, rsv0, rsv1, options, data))
            || (exists id, to, rsv0, rsv1, radius, options, data ::
                  p == TxLayout(id, to, rsv0, rsv1, radius, options, data))
  {
    if Acceptable(p) {
      if p[0] == TYPE_RX_IND {
        var src: Address := p[1..9];
        assert p == RxLayout(src, p[9], p[10], p[11], p[12..]);
      } else {
        var to: Address := p[2..10];
        assert p == TxLayout(p[1], to, p[10], p[11], p[12], p[13], p[14..]);
      }
    }
  }

  // ---- frame_encode

  /** Appends the stuffed form of b to the bytes w already written. */
  method PutStuffed(dst: array<Byte>, ghost w: seq<Byte>, at: nat, b: Byte, ghost orig: seq<Byte>) returns (next: nat)
    requires at == |w| && at + |Stuff(b)| <= |orig| && dst[..] == Over(w, orig)
    modifies dst
    ensures next == at + |Stuff(b)|
    ensures dst[..] == Over(w + Stuff(b), orig)
  {
    assert |dst[..]| == dst.Length;
    OverAppend(w, orig, Stuff(b));
    next := at;
    if NeedsEscape(b) {
      dst[next] := ESC;
      next := next + 1;
      dst[next] := Flip(b);
    } else {
      dst[next] := b;
    }
    next := next + 1;
    assert dst[..] == old(dst[..])[..at] + Stuff(b) + old(dst[..])[next..];
  }

  /** The frame of p up to and including its first n payload bytes, built byte by byte. */
  function FrameHead(p: seq<Byte>, n: nat): seq<Byte>
    requires n <= |p|
  {
    if n == 0 then [SYNC] + StuffAll(LengthBytes(|p|)) else FrameHead(p, n - 1) + Stuff(p[n - 1])
  }

  lemma {:induction false} StuffNext(l: seq<Byte>, p: seq<Byte>, n: nat)
    requires n < |p|
    ensures StuffAll(l + p[..n + 1]) == StuffAll(l + p[..n]) + Stuff(p[n])
  {
    assert l + p[..n + 1] == l + p[..n] + [p[n]];
    StuffAllSnoc(l + p[..n], p[n]);
  }

  lemma {:induction false} HeadIsStuffed(p: seq<Byte>, n: nat)
    requires n <= |p|
    ensures FrameHead(p, n) == [SYNC] + StuffAll(LengthBytes(|p|) + p[..n])
  {
    hide LengthBytes, Stuff, StuffAll;
    if n == 0 {
      assert LengthBytes(|p|) + p[..0] == LengthBytes(|p|);
    } else {
      HeadIsStuffed(p, n - 1);
      StuffNext(LengthBytes(|p|), p, n - 1);
    }
  }

  lemma {:induction false} HeadFits(p: seq<Byte>, n: nat)
    requires n <= |p|
    ensures |FrameHead(p, n)| < |Encode(p)|
    ensures FrameHead(p, |p|) + [Checksum(p)] == Encode(p)
  {
    HeadIsStuffed(p, n);
    HeadIsStuffed(p, |p|);
    assert p[..|p|] == p;
    StuffAllMonotone(LengthBytes(|p|) + p[..n], LengthBytes(|p|) + p);
  }

  lemma {:induction false} SumStep(p: seq<Byte>, n: nat)
    requires n < |p|
    ensures Sum16(p[..n + 1]) == Add16(Sum16(p[..n]), p[n])
  {
    assert p[..n + 1][..n] == p[..n];
  }

  lemma {:induction false} StuffAllMonotone(a: seq<Byte>, b: seq<Byte>)
    requires a <= b
    ensures |StuffAll(a)| <= |StuffAll(b)|
  {
    if |a| == |b| {
      assert a == b;
    } else {
      StuffAllMonotone(a, b[..|b| - 1]);
    }
  }

  lemma {:induction false} StuffedLength(n: nat)
    ensures var l := LengthBytes(n); StuffAll(l) == Stuff(l[0]) + Stuff(l[1])
  {
    var l := LengthBytes(n);
    assert l[..1] == [l[0]] && l[..1][..0] == [];
    assert StuffAll(l[..1]) == StuffAll([]) + Stuff(l[0]);
  }

  /** The payload loop of frame_encode: stuffs src[..len] after the length, summing and counting escapes. */
  method EncodePayload(src: array<Byte>, len: U16, dst: array<Byte>, at: nat, ghost p: seq<Byte>, ghost orig: seq<Byte>)
    returns (next: nat, sum: U16, escapes: nat)
    requires src != dst && len <= src.Length && src[..len] == p
    requires forall k :: 0 <= k <= |p| ==> |FrameHead(p, k)| < |orig|
    requires at == |FrameHead(p, 0)| && dst[..] == Over(FrameHead(p, 0), orig)
    modifies dst
    ensures next == |FrameHead(p, len)| == at + len + escapes
    ensures dst[..] == Over(FrameHead(p, len), orig)
    ensures sum == Sum16(p)
  {
    hide LengthBytes;
    var n := 0;
    next, sum, escapes := at, 0, 0;
    while n < len
      invariant 0 <= n <= len && src[..len] == p
      invariant next == |FrameHead(p, n)|
      invariant dst[..] == Over(FrameHead(p, n), orig)
      invariant sum == Sum16(p[..n])
      invariant next == at + n + escapes
    {
      var b := src[n];
      assert b == p[n] && FrameHead(p, n + 1) == FrameHead(p, n) + Stuff(b);
      SumStep(p, n);
      sum := Add16(sum, b);
      if NeedsEscape(b) { escapes := escapes + 1; }
      next := PutStuffed(dst, FrameHead(p, n), next, b, orig);
      n := n + 1;
    }
    assert p[..n] == p;
  }

  /** The length bytes of frame_encode. */
  method EncodeLength(len: U16, dst: array<Byte>) returns (at: nat, escapes: nat)
    requires 1 + |StuffAll(LengthBytes(len))| <= dst.Length
    modifies dst
    ensures at == 1 + |StuffAll(LengthBytes(len))| == 3 + escapes
    ensures dst[..] == Over([SYNC] + StuffAll(LengthBytes(len)), old(dst[..]))
  {
    ghost var orig := dst[..];
    var msb: Byte, lsb: Byte := (len / 256) % 256, len % 256;
    StuffedLength(len);
    escapes := 0;
    dst[0] := SYNC;
    assert dst[..] == Over([SYNC], orig);
    at := PutStuffed(dst, [SYNC], 1, msb, orig);
    if NeedsEscape(msb) { escapes := escapes + 1; }
    at := PutStuffed(dst, [SYNC] + Stuff(msb), at, lsb, orig);
    if NeedsEscape(lsb) { escapes := escapes + 1; }
    assert [SYNC] + Stuff(msb) + Stuff(lsb) == [SYNC] + StuffAll(LengthBytes(len));
  }

  /** frame_encode writes exactly the frame; its 16-bit result is the frame size modulo 2^16. */
  method FrameEncode(src: array<Byte>, len: U16, dst: array<Byte>) returns (clen: U16)
    requires src != dst && len <= src.Length
    requires |Encode(src[..len])| <= dst.Length
    modifies dst
    ensures var wire := Encode(src[..len]);
            clen == |wire| % 0x1_0000 && dst[..] == Over(wire, old(dst[..]))
  {
    ghost var p, orig := src[..len], dst[..];
    forall k | 0 <= k <= |p| ensures |FrameHead(p, k)| < |Encode(p)| {
      HeadFits(p, k);
    }
    assert FrameHead(p, 0) == [SYNC] + StuffAll(LengthBytes(len));
    hide FrameHead, Encode, StuffAll, LengthBytes, Sum16;
    var at, e0 := EncodeLength(len, dst);
    assert src[..len] == p;
    var end, sum, e1 := EncodePayload(src, len, dst, at, p, orig);
    var fcs: Byte := 255 - sum % 256;
    Sum16LowByte(p);
    HeadFits(p, len);
    assert Checksum(p) == fcs;
    OverAppend(FrameHead(p, len), orig, [fcs]);
    dst[end] := fcs;
    clen := (FRAME_LEN_MIN + len + e0 + e1) % 0x1_0000;
  }

  // ---- frame_decode

  /** Position of the first SYNC in src[..slen], or slen. */
  method FindSync(src: array<Byte>, slen: nat) returns (i: nat)
    requires slen <= src.Length
    ensures i == FirstSync(src[..slen])
  {
    i := 0;
    while i < slen && src[i] != SYNC
      invariant 0 <= i <= slen
      invariant FirstSync(src[..slen]) == i + FirstSync(src[i..slen])
    {
      assert src[i..slen][1..] == src[i + 1..slen];
      i := i + 1;
    }
  }

  /** How many bytes the decoder has stored after unstuffing u: at most the announced length. */
  function Stored(u: seq<Byte>, plen: nat): nat {
    if |u| < 2 then 0 else if |u| - 2 < plen then |u| - 2 else plen
  }

  /** The decoder's counters after unstuffing u: announced length, bytes stored, running sum. */
  ghost predicate Tracks(u: seq<Byte>, slen: nat, plen: nat, fcs: U16, stored: seq<Byte>) {
    && plen == (if |u| == 0 then 0 else if |u| == 1 then Word(u[0], 0) else Word(u[0], u[1]))
    && (|u| >= 2 ==> plen + FRAME_LEN_MIN <= slen)
    && |stored| == Stored(u, plen)
    && (|u| >= 2 ==> stored == u[2..2 + |stored|])
    && fcs == Sum16(stored)
  }

  /** A frame shorter than it announces is rejected as soon as the length is known. */
  lemma {:induction false} TooShort(s: seq<Byte>, i: nat)
    requires 1 <= i <= |s| && |Unstuff(s[1..i]).out| == 2
    requires |s| < Word(Unstuff(s[1..i]).out[0], Unstuff(s[1..i]).out[1]) + FRAME_LEN_MIN
    ensures !WellFormed(s)
  {
    var w := s[1..];
    assert w[..i - 1] == s[1..i];
    UnstuffPrefix(w, i - 1);
  }

  /** At the end of the buffer the decoder's last three tests decide well-formedness. */
  lemma {:induction false} FinalTests(s: seq<Byte>, plen: nat, fcs: U16, stored: seq<Byte>, b: Byte)
    requires s != []
    requires var u := Unstuff(s[1..]);
             Tracks(u.out, |s|, plen, fcs, stored) && (!u.esc && u.out != [] ==> b == u.out[|u.out| - 1])
    ensures var u := Unstuff(s[1..]);
            WellFormed(s) <==> !u.esc && |u.out| == plen + FRAME_LEN_MIN - 1 && 255 - fcs % 256 == b
    ensures WellFormed(s) ==> DecodeSynced(s) == Decoded(|s|, stored)
  {
    var u := Unstuff(s[1..]).out;
    if |u| == plen + FRAME_LEN_MIN - 1 {
      assert stored == u[2..|u| - 1];
      Sum16LowByte(stored);
    }
  }

  /** The decoder's reaction to one more unstuffed byte b; short reports that the announced length cannot fit. */
  method TakeByte(dst: array<Byte>, slen: nat, j: nat, plen: nat, fcs: U16, b: Byte, ghost u: seq<Byte>)
    returns (plen': nat, fcs': U16, short: bool)
    requires slen <= dst.Length + FRAME_LEN_MIN && j == |u| && Stored(u, plen) <= dst.Length
    requires Tracks(u, slen, plen, fcs, dst[..Stored(u, plen)])
    modifies dst
    ensures short <==> |u| == 1 && slen < Word(u[0], b) + FRAME_LEN_MIN
    ensures !short ==> Stored(u + [b], plen') <= dst.Length
                       && Tracks(u + [b], slen, plen', fcs', dst[..Stored(u + [b], plen')])
  {
    plen', fcs', short := plen, fcs, false;
    ghost var stored := dst[..Stored(u, plen)];
    if j > 1 {
      if j - 2 < plen {
        dst[j - 2] := b;
        fcs' := Add16(fcs, b);
        assert dst[..j - 1] == stored + [b] && (stored + [b])[..|stored|] == stored;
      } else {
        assert (u + [b])[2..2 + |stored|] == stored;
      }
    } else if j == 0 {
      plen' := Word(b, 0);
    } else {
      plen' := plen + b;
      short := slen < plen' + FRAME_LEN_MIN;
    }
  }

  lemma {:induction false} NextScanned(s: seq<Byte>, i: nat)
    requires 1 <= i < |s|
    ensures var p, b := Unstuff(s[1..i]), s[i];
            Unstuff(s[1..i + 1]) == (if p.esc then Scan(p.out + [Flip(b)], false)
                                     else if b == ESC then Scan(p.out, true)
                                     else Scan(p.out + [b], false))
  {
    UnstuffSnoc(s[1..i], s[i]);
    assert s[1..i] + [s[i]] == s[1..i + 1];
  }

  /** The unstuffing loop of frame_decode on a buffer already in sync. */
  method ScanFrame(src: array<Byte>, slen: nat, dst: array<Byte>) returns (consumed: nat, len: nat)
    requires src != dst && 1 <= slen <= src.Length && slen <= dst.Length + FRAME_LEN_MIN
    modifies dst
    ensures len <= dst.Length && Decoded(consumed, dst[..len]) == DecodeSynced(src[..slen])
    ensures len + FRAME_LEN_MIN <= slen || len == 0
    ensures consumed <= slen
  {
    ghost var s := src[..slen];
    assert Unstuff(s[1..1]) == Scan([], false);
    hide Unstuff, WellFormed;
    var i, j, plen: nat, fcs: U16 := 1, 0, 0, 0;
    var esc, b: Byte := false, 0;
    len := 0;
    ghost var u: seq<Byte> := [];
    while i < slen
      invariant 1 <= i <= slen && src[..slen] == s
      invariant Scan(u, esc) == Unstuff(s[1..i]) && j == |u|
      invariant Stored(u, plen) <= dst.Length
      invariant Tracks(u, slen, plen, fcs, dst[..Stored(u, plen)])
      invariant !esc && j > 0 ==> b == u[j - 1]
      invariant len == if j < 2 then 0 else plen
    {
      b := src[i];
      assert b == s[i];
      NextScanned(s, i);
      i := i + 1;
      if esc {
        esc := false;
        b := Flip(b);
      } else if b == ESC {
        esc := true;
        continue;
      }
      var short;
      plen, fcs, short := TakeByte(dst, slen, j, plen, fcs, b, u);
      u := u + [b];
      if short {
        TooShort(s, i);
        return 0, 0;
      }
      len := if j == 0 then 0 else plen;
      j := j + 1;
    }
    assert s[1..i] == s[1..];
    FinalTests(s, plen, fcs, dst[..Stored(u, plen)], b);
    if esc || j != plen + FRAME_LEN_MIN - 1 || 255 - fcs % 256 != b {
      return 0, 0;
    }
    consumed := i;
  }

  lemma {:induction false} MovedPrefix(all: seq<Byte>, i: nat, slen: nat)
    requires i <= slen <= |all|
    ensures all[i..slen] + all[slen - i..] == all[..slen][i..] + all[..slen][slen - i..] + all[slen..]
    ensures all[..slen][i..] == all[i..slen]
  {
  }

  /** The resynchronisation of frame_decode: finds the first SYNC and moves it to the front. */
  method Resync(src: array<Byte>, slen: nat) returns (i: nat)
    requires FRAME_LEN_MIN <= slen <= src.Length
    modifies src
    ensures i == FirstSync(old(src[..slen]))
    ensures src[..] == Resynced(old(src[..slen])) + old(src[slen..])
    ensures src[..slen - i] == old(src[..slen])[i..]
  {
    i := FindSync(src, slen);
    MovedPrefix(src[..], i, slen);
    assert src[..][..slen] == src[..slen] && src[..][slen..] == src[slen..];
    if 0 < i < slen {
      MoveToFront(src, i, slen);
      assert src[..slen - i] == src[..][..slen - i];
    }
  }

  /**
   * frame_decode: what it returns and stores is Decode of the buffer it was given, and it leaves the
   * buffer resynchronised.
   */
  method FrameDecode(src: array<Byte>, slen: U16, dst: array<Byte>) returns (consumed: U16, len: U16)
    requires src != dst && slen <= src.Length && slen <= dst.Length + FRAME_LEN_MIN
    modifies src, dst
    ensures len <= dst.Length && Decoded(consumed, dst[..len]) == Decode(old(src[..slen]))
    ensures consumed <= slen && (len == 0 || len + FRAME_LEN_MIN <= slen)
    ensures src[..] == Resynced(old(src[..slen])) + old(src[slen..])
  {
    consumed, len := 0, 0;
    if slen < FRAME_LEN_MIN {
      assert src[..] == src[..slen] + src[slen..];
      return;
    }
    var i := Resync(src, slen);
    if i == slen {
      return slen, 0;
    }
    consumed, len := ScanFrame(src, slen - i, dst);
  }

  // ---- pkt_decode and pkt_encode

  /** pkt_decode: the frame's payload if it is acceptable, with its length field; otherwise length 0. */
  method PktDecode(src: array<Byte>, len: U16, pkt: PacketBuffer) returns (res: U16)
    requires src != pkt.raw && len <= src.Length && len <= pkt.raw.Length + FRAME_LEN_MIN
    modifies src, pkt, pkt.raw
    ensures res == Decode(old(src[..len])).consumed && res <= len
    ensures src[..] == Resynced(old(src[..len])) + old(src[len..])
    ensures var p := Decode(old(src[..len])).payload;
            if Acceptable(p) then LEN_FIELD < pkt.len <= LEN_FIELD + pkt.raw.Length && pkt.Contents() == p
            else pkt.len == 0
  {
    var n: U16;
    res, n := FrameDecode(src, len, pkt.raw);
    pkt.len := n;
    if res > 0 && res <= len && pkt.len > 0 {
      assert pkt.raw[..n][0] == pkt.raw[0];
      pkt.len := pkt.len + LEN_FIELD;
      var tlen: nat;
      if pkt.raw[0] == TYPE_RX_IND {
        tlen := RX_PKT_SIZE;
      } else if pkt.raw[0] == TYPE_TX_REQ {
        tlen := TX_PKT_SIZE;
      } else {
        pkt.len := 0;
        return;
      }
      if pkt.len < tlen {
        pkt.len := 0;
      }
    }
  }

  /** pkt_encode frames everything after the length field. */
  method PktEncode(pkt: PacketBuffer, dst: array<Byte>) returns (clen: U16)
    requires pkt.raw != dst && LEN_FIELD <= pkt.len <= LEN_FIELD + pkt.raw.Length
    requires |Encode(pkt.Contents())| <= dst.Length
    modifies dst
    ensures var wire := Encode(pkt.Contents());
            clen == |wire| % 0x1_0000 && dst[..] == Over(wire, old(dst[..]))
  {
    clen := FrameEncode(pkt.raw, pkt.len - LEN_FIELD, dst);
  }
}
