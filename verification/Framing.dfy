/**
 * The escaped serial frame: SYNC, a big-endian 16-bit length, the payload and an additive checksum,
 * with byte stuffing. This module says what a frame IS; Packet holds the byte loops that build and read one.
 */
module Framing {
  import opened Bytes

  const SYNC: Byte := 0x7E
  const ESC: Byte := 0x7D
  const XON: Byte := 0x11
  const XOFF: Byte := 0x13
  const FRAME_LEN_MIN := 4

  predicate NeedsEscape(b: Byte) {
    b == SYNC || b == ESC || b == XON || b == XOFF
  }

  /** b exclusive-or 0x20: bit 5 is cleared where it is set and set where it is clear. */
  function Flip(b: Byte): (r: Byte)
    ensures r != b
  {
    if 32 <= b < 64 || 96 <= b < 128 || 160 <= b < 192 || 224 <= b then b - 32 else b + 32
  }

  lemma {:induction false} FlipIsXor(b: bv8)
    ensures Flip(b as int) == (b ^ 0x20) as int
  {
    if 32 <= b < 64 || 96 <= b < 128 || 160 <= b < 192 || 224 <= b {
      assert b ^ 0x20 == b - 32;
    } else {
      assert b ^ 0x20 == b + 32;
    }
  }

  function Stuff(b: Byte): seq<Byte> {
    if NeedsEscape(b) then [ESC, Flip(b)] else [b]
  }

  function StuffAll(s: seq<Byte>): seq<Byte> {
    if s == [] then [] else StuffAll(s[..|s| - 1]) + Stuff(s[|s| - 1])
  }

  /** What the decoder has after reading w: the unstuffed bytes, and whether an ESC is pending. */
  datatype Scan = Scan(out: seq<Byte>, esc: bool)

  function Unstuff(w: seq<Byte>): Scan {
    if w == [] then Scan([], false)
    else
      var p, b := Unstuff(w[..|w| - 1]), w[|w| - 1];
      if p.esc then Scan(p.out + [Flip(b)], false)
      else if b == ESC then Scan(p.out, true)
      else Scan(p.out + [b], false)
  }

  function Sum(p: seq<Byte>): nat {
    if p == [] then 0 else Sum(p[..|p| - 1]) + p[|p| - 1]
  }

  /** The decoder's and encoder's 16-bit accumulator: addition that wraps at 2^16. */
  function Add16(a: U16, b: Byte): U16 {
    if a + b < 0x1_0000 then a + b else a + b - 0x1_0000
  }

  function Sum16(p: seq<Byte>): U16 {
    if p == [] then 0 else Add16(Sum16(p[..|p| - 1]), p[|p| - 1])
  }

  /** The wrapped sum agrees with the true one where it matters, in its low byte. */
  lemma {:induction false} Sum16LowByte(p: seq<Byte>)
    ensures Sum16(p) == Sum(p) % 0x1_0000
    ensures Sum16(p) % 256 == Sum(p) % 256
  {
    LowByte(Sum(p));
    if p != [] {
      Sum16LowByte(p[..|p| - 1]);
      Add16Wraps(Sum(p[..|p| - 1]), p[|p| - 1]);
    }
  }

  lemma {:induction false} Add16Wraps(n: nat, b: Byte)
    ensures Add16(n % 0x1_0000, b) == (n + b) % 0x1_0000
  {
  }

  lemma {:induction false} LowByte(n: nat)
    ensures n % 0x1_0000 % 256 == n % 256
  {
  }

  function Checksum(p: seq<Byte>): Byte {
    255 - Sum(p) % 256
  }

  /** The length a pair of length bytes announces. */
  function Word(hi: int, lo: int): int {
    256 * hi + lo
  }

  function LengthBytes(n: nat): (s: seq<Byte>)
    ensures |s| == 2
  {
    [(n / 256) % 256, n % 256]
  }

  /** The frame that carries payload p: everything between SYNC and the checksum is stuffed. */
  function Encode(p: seq<Byte>): seq<Byte> {
    [SYNC] + StuffAll(LengthBytes(|p|) + p) + [Checksum(p)]
  }

  /** u is a complete unstuffed frame body: length, that many payload bytes, matching checksum. */
  predicate ValidBody(u: seq<Byte>) {
    |u| >= 3 && |u| == Word(u[0], u[1]) + 3 && u[|u| - 1] == Checksum(u[2..|u| - 1])
  }

  /** Result of frame_decode: bytes consumed, and the payload written (its length is the out-length). */
  datatype Decoded = Decoded(consumed: nat, payload: seq<Byte>)

  const INCOMPLETE := Decoded(0, [])

  predicate WellFormed(s: seq<Byte>) {
    s != [] && var u := Unstuff(s[1..]); !u.esc && ValidBody(u.out)
  }

  function DecodeSynced(s: seq<Byte>): Decoded
    requires s != []
  {
    if WellFormed(s) then
      var u := Unstuff(s[1..]).out;
      Decoded(|s|, u[2..|u| - 1])
    else INCOMPLETE
  }

  /** Position of the first SYNC, or |s|. */
  function FirstSync(s: seq<Byte>): (f: nat)
    ensures f <= |s|
    ensures forall k :: 0 <= k < f ==> s[k] != SYNC
    ensures f < |s| ==> s[f] == SYNC
  {
    if s == [] then 0 else if s[0] == SYNC then 0 else 1 + FirstSync(s[1..])
  }

  function Decode(s: seq<Byte>): (d: Decoded)
    ensures d.consumed <= |s|
  {
    var f := FirstSync(s);
    if |s| < FRAME_LEN_MIN then INCOMPLETE
    else if f == |s| then Decoded(|s|, [])
    else DecodeSynced(s[f..])
  }

  /** What frame_decode leaves in its source buffer: a late SYNC is moved to the front. */
  function Resynced(s: seq<Byte>): (r: seq<Byte>)
    ensures |r| == |s|
  {
    var f := FirstSync(s);
    if |s| < FRAME_LEN_MIN || f == |s| then s else s[f..] + s[|s| - f..]
  }

  // ---- Byte stuffing

  lemma {:induction false} UnstuffSnoc(w: seq<Byte>, b: Byte)
    ensures var p := Unstuff(w);
            Unstuff(w + [b]) == (if p.esc then Scan(p.out + [Flip(b)], false)
                                 else if b == ESC then Scan(p.out, true)
                                 else Scan(p.out + [b], false))
  {
    assert (w + [b])[..|w|] == w;
  }

  lemma {:induction false} StuffAllSnoc(s: seq<Byte>, b: Byte)
    ensures StuffAll(s + [b]) == StuffAll(s) + Stuff(b)
  {
    assert (s + [b])[..|s|] == s;
  }

  lemma {:induction false} SumSnoc(p: seq<Byte>, b: Byte)
    ensures Sum(p + [b]) == Sum(p) + b
  {
    assert (p + [b])[..|p|] == p;
  }

  lemma {:induction false} UnstuffStuff(w: seq<Byte>, b: Byte)
    requires !Unstuff(w).esc
    ensures Unstuff(w + Stuff(b)) == Scan(Unstuff(w).out + [b], false)
  {
    if NeedsEscape(b) {
      UnstuffSnoc(w, ESC);
      UnstuffSnoc(w + [ESC], Flip(b));
      assert w + Stuff(b) == w + [ESC] + [Flip(b)];
    } else {
      UnstuffSnoc(w, b);
    }
  }

  /** Unstuffing undoes stuffing. */
  lemma {:induction false} UnstuffStuffAll(s: seq<Byte>)
    ensures Unstuff(StuffAll(s)) == Scan(s, false)
  {
    if s != [] {
      hide *;
      var a, x := s[..|s| - 1], s[|s| - 1];
      assert a + [x] == s;
      StuffAllSnoc(a, x);
      UnstuffStuffAll(a);
      UnstuffStuff(StuffAll(a), x);
    }
  }

  /** Reading further never takes back an unstuffed byte, and never yields more bytes than were read. */
  lemma {:induction false} UnstuffPrefix(w: seq<Byte>, k: nat)
    requires k <= |w|
    ensures Unstuff(w[..k]).out <= Unstuff(w).out
    ensures |Unstuff(w).out| <= |Unstuff(w[..k]).out| + |w| - k
    ensures |Unstuff(w).out| <= |w|
  {
    if k == |w| {
      assert w[..k] == w;
      if w != [] {
        UnstuffPrefix(w[..k - 1], 0);
      }
    } else {
      UnstuffPrefix(w[..|w| - 1], k);
      assert w[..|w| - 1][..k] == w[..k];
    }
  }

  lemma {:induction false} StuffAllConcat(a: seq<Byte>, b: seq<Byte>)
    ensures StuffAll(a + b) == StuffAll(a) + StuffAll(b)
  {
    hide Stuff;
    if b == [] {
      assert a + b == a;
    } else {
      StuffAllConcat(a, b[..|b| - 1]);
      assert (a + b)[..|a + b| - 1] == a + b[..|b| - 1];
    }
  }

  /** Where nothing needs an escape, stuffing changes nothing. */
  lemma {:induction false} PlainUnstuffed(s: seq<Byte>)
    requires forall k :: 0 <= k < |s| ==> !NeedsEscape(s[k])
    ensures StuffAll(s) == s
  {
    if s != [] {
      PlainUnstuffed(s[..|s| - 1]);
    }
  }

  lemma {:induction false} ZerosSum(n: nat)
    ensures Sum(Zeros(n)) == 0
  {
    if n > 0 {
      ZerosSum(n - 1);
      assert Zeros(n)[..n - 1] == Zeros(n - 1);
    }
  }

  lemma {:induction false} SumConcat(a: seq<Byte>, b: seq<Byte>)
    ensures Sum(a + b) == Sum(a) + Sum(b)
  {
    if b == [] {
      assert a + b == a;
    } else {
      SumConcat(a, b[..|b| - 1]);
      assert (a + b)[..|a + b| - 1] == a + b[..|b| - 1];
    }
  }

  lemma {:induction false} StuffAllSize(s: seq<Byte>)
    ensures |s| <= |StuffAll(s)| <= 2 * |s|
  {
    if s == [] {
    } else {
      StuffAllSize(s[..|s| - 1]);
    }
  }

  lemma {:induction false} LengthBytesValue(n: nat)
    requires n < 0x1_0000
    ensures Word(LengthBytes(n)[0], LengthBytes(n)[1]) == n
  {
    assert n / 256 < 256;
  }

  // ---- Round trip

  /** A stuffed body followed by one raw byte: that byte is read as itself unless it is ESC. */
  lemma {:induction false} ScanThenRaw(body: seq<Byte>, c: Byte)
    ensures Unstuff(StuffAll(body) + [c]) == if c == ESC then Scan(body, true) else Scan(body + [c], false)
  {
    UnstuffStuffAll(body);
    UnstuffSnoc(StuffAll(body), c);
  }

  lemma {:induction false} EncodeTail(p: seq<Byte>)
    ensures Encode(p) == [SYNC] + Encode(p)[1..]
    ensures Encode(p)[1..] == StuffAll(LengthBytes(|p|) + p) + [Checksum(p)]
    ensures |Encode(p)| == |StuffAll(LengthBytes(|p|) + p)| + 2 >= |p| + 4
  {
    StuffAllSize(LengthBytes(|p|) + p);
  }

  lemma {:induction false} EncodedScan(p: seq<Byte>)
    ensures Encode(p)[0] == SYNC && |Encode(p)| >= 4
    ensures Unstuff(Encode(p)[1..]) ==
            if Checksum(p) == ESC then Scan(LengthBytes(|p|) + p, true)
            else Scan(LengthBytes(|p|) + p + [Checksum(p)], false)
  {
    var body, c := LengthBytes(|p|) + p, Checksum(p);
    StuffAllSize(body);
    ScanThenRaw(body, c);
    assert Encode(p)[1..] == StuffAll(body) + [c];
  }

  lemma {:induction false} FramedBody(p: seq<Byte>)
    requires |p| < 0x1_0000
    ensures var u := LengthBytes(|p|) + p + [Checksum(p)];
            ValidBody(u) && u[2..|u| - 1] == p
  {
    var u := LengthBytes(|p|) + p + [Checksum(p)];
    LengthBytesValue(|p|);
    assert u[2..|u| - 1] == p;
  }

  /**
   * Decoding an encoded payload gives it back and consumes the whole frame exactly when the checksum
   * is not ESC; a checksum of ESC is sent unescaped and then read as a dangling escape.
   */
  lemma {:induction false} RoundTrip(p: seq<Byte>)
    requires |p| < 0x1_0000
    ensures Checksum(p) != ESC ==> Decode(Encode(p)) == Decoded(|Encode(p)|, p)
    ensures Checksum(p) == ESC ==> Decode(Encode(p)) == INCOMPLETE
  {
    EncodedScan(p);
    FramedBody(p);
    assert Encode(p)[FirstSync(Encode(p))..] == Encode(p);
  }

  /** The checksum ESC does occur: a one-byte payload 0x82 cannot be decoded from its own encoding. */
  lemma {:induction false} RoundTripFailsOnEscChecksum()
    ensures Checksum([0x82]) == ESC && Decode(Encode([0x82])) != Decoded(|Encode([0x82])|, [0x82])
  {
    SumSnoc([], 0x82);
    assert [] + [0x82] == [0x82];
    RoundTrip([0x82]);
  }

  lemma {:induction false} ShortIncomplete(s: seq<Byte>)
    requires |s| < FRAME_LEN_MIN
    ensures Decode(s) == INCOMPLETE
  {
  }

  lemma {:induction false} CutTail(w: seq<Byte>, k: nat)
    requires 1 <= k <= |w|
    ensures w[1..][..k - 1] == w[..k][1..]
  {
  }

  /** Every proper prefix of an encoding is reported incomplete, whatever the checksum. */
  lemma {:induction false} PrefixIncomplete(p: seq<Byte>, k: nat)
    requires |p| < 0x1_0000 && k < |Encode(p)|
    ensures Decode(Encode(p)[..k]) == INCOMPLETE
  {
    hide Encode, Decode, DecodeSynced, Unstuff, StuffAll, Checksum, ValidBody;
    var w := Encode(p);
    if k < FRAME_LEN_MIN {
      ShortIncomplete(w[..k]);
    } else {
      EncodeTail(p);
      InSync(w[..k]);
      PartialScan(LengthBytes(|p|) + p, Checksum(p), k - 1);
      CutTail(w, k);
      TruncatedBody(p, Unstuff(w[..k][1..]).out);
    }
  }

  lemma {:induction false} InSync(s: seq<Byte>)
    requires |s| >= FRAME_LEN_MIN && s[0] == SYNC
    ensures Decode(s) == DecodeSynced(s)
    ensures ValidBody(Unstuff(s[1..]).out) || Decode(s) == INCOMPLETE
  {
    assert FirstSync(s) == 0 && s[0..] == s;
  }

  /** Stopping before the raw last byte, the scan has seen a prefix of the body. */
  lemma {:induction false} PartialScan(body: seq<Byte>, c: Byte, k: nat)
    requires k <= |StuffAll(body)|
    ensures Unstuff((StuffAll(body) + [c])[..k]).out <= body
  {
    UnstuffStuffAll(body);
    UnstuffPrefix(StuffAll(body), k);
    assert (StuffAll(body) + [c])[..k] == StuffAll(body)[..k];
  }

  lemma {:induction false} TruncatedBody(p: seq<Byte>, u: seq<Byte>)
    requires |p| < 0x1_0000 && u <= LengthBytes(|p|) + p
    ensures !ValidBody(u)
  {
    LengthBytesValue(|p|);
    if |u| >= 2 {
      assert u[0] == LengthBytes(|p|)[0] && u[1] == LengthBytes(|p|)[1];
    }
  }

  /**
   * A buffer that holds a whole frame and the beginning of the next one is never decoded: the decoder
   * wants the frame to end where the buffer ends. This is why no read may straddle two frames.
   */
  lemma {:induction false} StraddlingIncomplete(p: seq<Byte>, tail: seq<Byte>)
    requires |p| < 0x1_0000 && tail != [] && tail[0] == SYNC
    ensures Decode(Encode(p) + tail) == INCOMPLETE
  {
    var s, body, c := Encode(p) + tail, LengthBytes(|p|) + p, Checksum(p);
    EncodedScan(p);
    assert FirstSync(s) == 0 && s[0..] == s;
    assert s[1..] == Encode(p)[1..] + tail;
    var w := Encode(p)[1..] + [SYNC];
    UnstuffSnoc(Encode(p)[1..], SYNC);
    assert s[1..][..|w|] == w;
    UnstuffPrefix(s[1..], |w|);
    FramedBody(p);
    if c == ESC {
      NotCompletedBy(p, Flip(SYNC), Unstuff(s[1..]).out);
    } else {
      LengthBytesValue(|p|);
    }
  }

  lemma {:induction false} NotCompletedBy(p: seq<Byte>, b: Byte, u: seq<Byte>)
    requires |p| < 0x1_0000 && b != Checksum(p) && LengthBytes(|p|) + p + [b] <= u
    ensures !ValidBody(u)
  {
    LengthBytesValue(|p|);
    if |u| == |p| + 3 {
      assert u[2..|u| - 1] == p;
    }
  }

  // ---- What is on the line

  /** How many bytes of s are one of the four control bytes. */
  function Controls(s: seq<Byte>): nat {
    if s == [] then 0
    else
      var b := s[|s| - 1];
      Controls(s[..|s| - 1]) + if b == 0x7E || b == 0x7D || b == 0x11 || b == 0x13 then 1 else 0
  }

  lemma {:induction false} StuffedClean(s: seq<Byte>)
    ensures forall b :: b in StuffAll(s) ==> b != 0x7E && b != 0x11 && b != 0x13
    ensures |StuffAll(s)| == |s| + Controls(s)
  {
    if s != [] {
      StuffedClean(s[..|s| - 1]);
      StuffClean(s[|s| - 1]);
      hide Stuff;
    }
  }

  lemma {:induction false} StuffClean(b: Byte)
    ensures forall x :: x in Stuff(b) ==> x != 0x7E && x != 0x11 && x != 0x13
    ensures |Stuff(b)| == if b == 0x7E || b == 0x7D || b == 0x11 || b == 0x13 then 2 else 1
  {
  }

  /**
   * A frame starts with 0x7E; from there to its last byte neither that nor a flow-control byte occurs. It
   * is as much longer than the payload and four bytes as length and payload hold control bytes. What stands
   * between is read back as the length, high byte first, and the payload, and the last byte makes their sum
   * come to 255.
   */
  lemma {:induction false} FrameOnTheLine(p: seq<Byte>)
    requires |p| < 0x1_0000
    ensures var w, n, head := Encode(p), |Encode(p)| - 1, [|p| / 256, |p| % 256];
            && w[0] == 0x7E
            && (forall k :: 0 < k < n ==> w[k] != 0x7E && w[k] != 0x11 && w[k] != 0x13)
            && |w| == |p| + 4 + Controls(head + p)
            && Unstuff(w[1..n]) == Scan(head + p, false)
            && w[n] == 255 - Sum(p) % 256
  {
    var w, body := Encode(p), LengthBytes(|p|) + p;
    assert LengthBytes(|p|) == [|p| / 256, |p| % 256];
    EncodeTail(p);
    StuffedClean(body);
    UnstuffStuffAll(body);
    var t := StuffAll(body);
    assert w == [SYNC] + t + [Checksum(p)] && w[1..|w| - 1] == t;
    hide StuffAll, Unstuff;
    forall k | 0 < k < |w| - 1 ensures w[k] != 0x7E && w[k] != 0x11 && w[k] != 0x13 {
      assert w[k] == t[k - 1] && t[k - 1] in t;
    }
  }

  /** A frame with an escaped flow-control byte, literally. */
  lemma {:induction false} XoffFrame()
    ensures Encode([0x13]) == [0x7E, 0x00, 0x01, 0x7D, 0x33, 0xEC]
  {
    assert LengthBytes(1) == [0, 1] && [0, 1] + [0x13] == [0, 1, 0x13];
    PlainUnstuffed([0, 1]);
    StuffAllSnoc([0, 1], 0x13);
    SumSnoc([], 0x13);
    assert [] + [0x13] == [0x13] && [0, 1] + [0x13] == [0, 1, 0x13];
    hide StuffAll, Sum, Unstuff;
    assert StuffAll([0, 1, 0x13]) == [0, 1, 0x7D, 0x33];
  }

  // ---- Resynchronisation

  lemma {:induction false} FirstSyncAfter(junk: seq<Byte>, s: seq<Byte>)
    requires SYNC !in junk && s != [] && s[0] == SYNC
    ensures FirstSync(junk + s) == |junk|
  {
    if junk == [] {
      assert junk + s == s;
    } else {
      assert junk[0] != SYNC;
      assert (junk + s)[1..] == junk[1..] + s;
      FirstSyncAfter(junk[1..], s);
    }
  }

  /**
   * After any SYNC-free prefix one whole frame is still delivered; the count that is returned leaves
   * the dropped prefix out, and the frame has been moved to the front of the buffer.
   */
  lemma {:induction false} Resynchronises(junk: seq<Byte>, p: seq<Byte>)
    requires SYNC !in junk && |p| < 0x1_0000 && Checksum(p) != ESC
    ensures Decode(junk + Encode(p)) == Decoded(|Encode(p)|, p)
    ensures Resynced(junk + Encode(p))[..|Encode(p)|] == Encode(p)
  {
    var s := junk + Encode(p);
    EncodedScan(p);
    FirstSyncAfter(junk, Encode(p));
    RoundTrip(p);
    assert s[|junk|..] == Encode(p);
  }

  /** Four or more bytes without a SYNC are all discarded; fewer are left alone. */
  lemma {:induction false} NoSyncTrashed(s: seq<Byte>)
    requires 0x7E !in s
    ensures Decode(s) == Decoded(if |s| >= 4 then |s| else 0, []) && Resynced(s) == s
  {
    assert forall k :: 0 <= k < |s| ==> s[k] in s;
  }

  // ---- Characterisation and checksum strength

  /**
   * On a buffer that starts with SYNC the decoder succeeds exactly when the unstuffed remainder, with no
   * escape pending, is length, payload and checksum of some payload p, and then p is what it returns.
   */
  lemma {:induction false} DecoderCharacterised(s: seq<Byte>, p: seq<Byte>)
    requires |s| >= FRAME_LEN_MIN && s[0] == SYNC && |p| < 0x1_0000
    ensures Decode(s) == Decoded(|s|, p)
            <==> Unstuff(s[1..]) == Scan(LengthBytes(|p|) + p + [Checksum(p)], false)
    ensures Decode(s) == INCOMPLETE || Decode(s).consumed == |s|
  {
    assert s[FirstSync(s)..] == s;
    var u := Unstuff(s[1..]);
    FramedBody(p);
    if Decode(s) == Decoded(|s|, p) {
      assert u.out[2..|u.out| - 1] == p;
      assert |p| == Word(u.out[0], u.out[1]);
      assert u.out[..2] == LengthBytes(|p|);
      assert u.out == u.out[..2] + u.out[2..|u.out| - 1] + [u.out[|u.out| - 1]];
    }
  }

  lemma {:induction false} SumUpdate(p: seq<Byte>, k: nat, b: Byte)
    requires k < |p|
    ensures Sum(p[k := b]) == Sum(p) - p[k] + b
  {
    var n := |p| - 1;
    if k == n {
      assert p[k := b][..n] == p[..n];
    } else {
      assert p[k := b][..n] == p[..n][k := b];
      SumUpdate(p[..n], k, b);
    }
  }

  lemma {:induction false} ResidueDiffers(a: int, x: Byte, y: Byte)
    requires x != y
    ensures (a + x) % 256 != (a + y) % 256
  {
    var q, r := (a + x) / 256, (a + y) / 256;
    assert x - y == 256 * (q - r) + (a + x) % 256 - (a + y) % 256;
  }

  /** Changing one byte of a valid body, wherever it is, leaves an invalid one. */
  lemma {:induction false} SingleByteError(u: seq<Byte>, k: nat, b: Byte)
    requires ValidBody(u) && k < |u| && b != u[k]
    ensures !ValidBody(u[k := b])
  {
    var v, n := u[k := b], |u| - 1;
    if 2 <= k < n {
      var p := u[2..n];
      assert v[2..n] == p[k - 2 := b];
      SumUpdate(p, k - 2, b);
      ResidueDiffers(Sum(p) - p[k - 2], p[k - 2], b);
    } else {
      assert v[2..n] == u[2..n];
    }
  }

  /** No wire image of a body with one byte changed is accepted, however that body was stuffed. */
  lemma {:induction false} SingleByteErrorRejected(s: seq<Byte>, u: seq<Byte>, k: nat, b: Byte)
    requires |s| >= FRAME_LEN_MIN && s[0] == SYNC
    requires ValidBody(u) && k < |u| && b != u[k]
    requires Unstuff(s[1..]).out == u[k := b]
    ensures Decode(s) == INCOMPLETE
  {
    SingleByteError(u, k, b);
    assert s[FirstSync(s)..] == s;
  }
}
