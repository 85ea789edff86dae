/**
 * The sender: the relay packets its simulated radio produces, the loop that writes them out, and the
 * checks it makes on what comes back.
 */
module Sender {
  import opened Bytes
  import opened Framing
  import opened Clock
  import opened Messages
  import AddrCache
  import Packet
  import Forwarder

  const BUF_SIZE := 4096

  /** The 8-bit counter step: zero is skipped. */
  function NextSeq(s: Byte): (r: Byte)
    ensures r != 0
  {
    var n := if s == 255 then 0 else s + 1;
    if n == 0 then 1 else n
  }

  /** The sequence number of the k-th send; the packet buffer starts zeroed. */
  function SeqOf(k: nat): Byte {
    NextSeq(if k == 0 then 0 else SeqOf(k - 1))
  }

  lemma {:induction false} ModStep(k: nat)
    ensures (k + 1) % 255 == if k % 255 == 254 then 0 else k % 255 + 1
  {
  }

  lemma {:induction false} SeqOfCycles(k: nat)
    ensures SeqOf(k) == k % 255 + 1
  {
    if k > 0 {
      SeqOfCycles(k - 1);
      ModStep(k - 1);
    }
  }

  /** Two sends share a sequence number exactly when they are a multiple of 255 apart. */
  lemma {:induction false} SameSeqFarApart(k: nat, m: nat)
    requires k < m
    ensures SeqOf(k) == SeqOf(m) <==> (m - k) % 255 == 0
    ensures SeqOf(k) == SeqOf(m) ==> m >= k + 255
  {
    SeqOfCycles(k);
    SeqOfCycles(m);
    hide SeqOf;
    SameResidue(k, m);
  }

  lemma {:induction false} SameResidue(k: nat, m: nat)
    requires k < m
    ensures k % 255 == m % 255 <==> (m - k) % 255 == 0
    ensures (m - k) % 255 == 0 ==> m - k >= 255
  {
    var q, r := k / 255, m / 255;
    assert m - k == 255 * (r - q) + (m % 255 - k % 255);
    if m % 255 >= k % 255 {
      Residue(r - q, m % 255 - k % 255);
    } else {
      Residue(r - q - 1, 255 + m % 255 - k % 255);
    }
  }

  lemma {:induction false} Residue(q: int, d: nat)
    requires d < 255
    ensures (255 * q + d) % 255 == d
  {
  }

  /** The counter's value before the k-th send. */
  predicate Precedes(s: Byte, k: nat) {
    s == if k == 0 then 0 else SeqOf(k - 1)
  }

  lemma {:induction false} SeqNext(s: Byte, k: nat)
    requires Precedes(s, k)
    ensures NextSeq(s) == SeqOf(k) && Precedes(NextSeq(s), k + 1)
  {
  }

  // ---- The simulated packet

  const SIM_SRC: Address := [0, 0, 0, 0, 0xFF, 0xFF, 0xFF, 0xFF]
  const SIM_HEAD: seq<Byte> := [Packet.TYPE_RX_IND] + SIM_SRC + [0xFF, 0xFE, 0] + MAGIC

  // Offsets in the packet's contents
  const RSV_AT := 9
  const ADDR_AT := 16
  const PORT_AT := 20
  const SEQ_AT := 22
  const TS_AT := 23

  /** What the options allow: a relay record at least, less than a serial buffer at most. */
  predicate SizeOk(size: nat) {
    27 <= size < 2048
  }

  predicate TimeOk(ts: Timespec) {
    Fits64(ts.sec) && Fits64(ts.nsec)
  }

  /** The packet of one send: our own address, the sequence number and time of the send, and padding. */
  function SimPacket(listen: AddrCache.Peer, seqno: Byte, ts: Timespec, size: nat): (p: seq<Byte>)
    requires SizeOk(size) && TimeOk(ts)
    ensures |p| == Forwarder.DATA_AT + size
  {
    SIM_HEAD + RelayBytes(Relay(listen.addr, listen.port, seqno, ts)) + Zeros(size - RELAY_DATA)
  }

  /** The packets of the first |times| sends. */
  function Sends(listen: AddrCache.Peer, size: nat, times: seq<Timespec>): (ps: seq<seq<Byte>>)
    requires SizeOk(size) && forall k :: 0 <= k < |times| ==> TimeOk(times[k])
    ensures |ps| == |times|
    ensures forall k :: 0 <= k < |ps| ==> ps[k] == SimPacket(listen, SeqOf(k), times[k], size)
  {
    seq(|times|, k requires 0 <= k < |times| => SimPacket(listen, SeqOf(k), times[k], size))
  }

  predicate AllTimesOk(times: seq<Timespec>) {
    forall k :: 0 <= k < |times| ==> TimeOk(times[k])
  }

  /** Their frames, as they go out on the serial line. */
  function Frames(listen: AddrCache.Peer, size: nat, times: seq<Timespec>): (fs: seq<seq<Byte>>)
    requires SizeOk(size) && AllTimesOk(times)
    ensures |fs| == |times| && AreFrames(fs, listen, size, times)
  {
    seq(|times|, k requires 0 <= k < |times| => Encode(SimPacket(listen, SeqOf(k), times[k], size)))
  }

  predicate AreFrames(fs: seq<seq<Byte>>, listen: AddrCache.Peer, size: nat, times: seq<Timespec>)
    requires AllTimesOk(times)
  {
    && SizeOk(size) && |fs| == |times|
    && forall k :: 0 <= k < |fs| ==> fs[k] == Encode(SimPacket(listen, SeqOf(k), times[k], size))
  }

  function StampBytes(ts: Timespec): (s: seq<Byte>)
    requires TimeOk(ts)
    ensures |s| == 16
  {
    ToLE(Pattern64(ts.sec), 8) + ToLE(Pattern64(ts.nsec), 8)
  }

  /** A simulated packet byte by byte: the fixed part, the record it can be read back from, and zeros. */
  lemma {:induction false} SimBytes(listen: AddrCache.Peer, seqno: Byte, ts: Timespec, size: nat)
    requires 27 <= size < 2048 && TimeOk(ts)
    ensures var p := SimPacket(listen, seqno, ts, size);
            && |p| == 12 + size
            && p[..16] == [0x90, 0, 0, 0, 0, 0xFF, 0xFF, 0xFF, 0xFF, 0xFF, 0xFE, 0, 0xEF, 0xBE, 0xAD, 0xDE]
            && ReadRelay(p[16..39]) == Relay(listen.addr, listen.port, seqno, ts)
            && forall k :: 39 <= k < |p| ==> p[k] == 0
  {
    var r := Relay(listen.addr, listen.port, seqno, ts);
    RelayRoundTrip(r);
    var s := RelayBytes(r);
    hide RelayBytes, ReadRelay;
    assert SimPacket(listen, seqno, ts, size)[16..39] == s;
  }

  /** The fixed fields over zeros are the packet before the first send. */
  lemma {:induction false} FieldsMakePacket(p: seq<Byte>, listen: AddrCache.Peer, size: nat)
    requires SizeOk(size) && |p| == Forwarder.DATA_AT + size
    requires p[..Forwarder.DATA_AT] == [Packet.TYPE_RX_IND, 0, 0, 0, 0, 0xFF, 0xFF, 0xFF, 0xFF, 0xFF, 0xFE, 0]
    requires p[Forwarder.DATA_AT..] == Zeros(size)
    ensures p[..Forwarder.DATA_AT] + MAGIC + ToLE(listen.addr, 4) + ToLE(listen.port, 2) + p[SEQ_AT..]
            == SimPacket(listen, 0, ZERO, size)
  {
    ZeroLE(8);
    hide ToLE;
    assert p[..Forwarder.DATA_AT] == [Packet.TYPE_RX_IND] + SIM_SRC + [0xFF, 0xFE, 0];
    assert p[SEQ_AT..] == Zeros(size)[SEQ_AT - Forwarder.DATA_AT..];
    assert p[SEQ_AT..] == [0] + Zeros(8) + Zeros(8) + Zeros(size - RELAY_DATA);
  }

  lemma {:induction false} FieldsPut(p: seq<Byte>, a: seq<Byte>, b: seq<Byte>, c: seq<Byte>, at: nat)
    requires at + |a| + |b| + |c| <= |p|
    ensures var p1 := p[..at] + a + p[at + |a|..];
            var n1 := at + |a|;
            var p2 := p1[..n1] + b + p1[n1 + |b|..];
            var n2 := n1 + |b|;
            p2[..n2] + c + p2[n2 + |c|..] == p[..at] + a + b + c + p[n2 + |c|..]
  {
  }

  lemma {:induction false} SimPacketFields(listen: AddrCache.Peer, s: Byte, ts: Timespec, s': Byte, ts': Timespec, size: nat)
    requires SizeOk(size) && TimeOk(ts) && TimeOk(ts')
    ensures var p := SimPacket(listen, s, ts, size);
            SimPacket(listen, s', ts', size) ==
            p[..SEQ_AT] + [s'] + StampBytes(ts') + p[TS_AT + 16..]
    ensures SimPacket(listen, s, ts, size)[SEQ_AT] == s
  {
  }

  /** The frame of any simulated packet fits the sender's buffer: its padding needs no escapes. */
  lemma {:induction false} SimFrameFits(listen: AddrCache.Peer, seqno: Byte, ts: Timespec, size: nat)
    requires 27 <= size < 2048 && TimeOk(ts)
    ensures |Encode(SimPacket(listen, seqno, ts, size))| <= 4096
  {
    var p := SimPacket(listen, seqno, ts, size);
    var head := SIM_HEAD + RelayBytes(Relay(listen.addr, listen.port, seqno, ts));
    var l := LengthBytes(|p|);
    hide RelayBytes, LengthBytes;
    assert l + p == l + head + Zeros(size - RELAY_DATA);
    StuffAllConcat(l + head, Zeros(size - RELAY_DATA));
    StuffAllSize(l + head);
    PlainUnstuffed(Zeros(size - RELAY_DATA));
  }

  lemma {:induction false} Patched(before: seq<Byte>, stamp: seq<Byte>, next: Byte)
    requires |stamp| == 16 && TS_AT + 16 <= |before|
    ensures (before[..TS_AT] + stamp + before[TS_AT + 16..])[SEQ_AT] == before[SEQ_AT]
    ensures (before[..TS_AT] + stamp + before[TS_AT + 16..])[SEQ_AT := next]
            == before[..SEQ_AT] + [next] + stamp + before[TS_AT + 16..]
  {
  }

  type Positive = n: int | n > 0 witness 1

  /** Where write() leaves off: bytes taken, an interruption to retry, or a failure that ends the program. */
  datatype WriteResult = Wrote(n: Positive) | Interrupted | Failed

  /** Type, source and reserved bytes, stored into a cleared packet. */
  method StoreHead(raw: array<Byte>)
    requires raw.Length >= Forwarder.DATA_AT && forall k :: 0 <= k < raw.Length ==> raw[k] == 0
    modifies raw
    ensures raw[..Forwarder.DATA_AT] == [Packet.TYPE_RX_IND, 0, 0, 0, 0, 0xFF, 0xFF, 0xFF, 0xFF, 0xFF, 0xFE, 0]
    ensures forall k :: Forwarder.DATA_AT <= k < raw.Length ==> raw[k] == 0
  {
    raw[0] := Packet.TYPE_RX_IND;
    raw[RSV_AT] := 0xFF;
    raw[RSV_AT + 1] := 0xFE;
    raw[Forwarder.SRC_AT + 4] := 0xFF;
    raw[Forwarder.SRC_AT + 5] := 0xFF;
    raw[Forwarder.SRC_AT + 6] := 0xFF;
    raw[Forwarder.SRC_AT + 7] := 0xFF;
  }

  /** The fields that stay the same for all sends, stored one after the other into a cleared packet. */
  method StoreFields(raw: array<Byte>, listen: AddrCache.Peer, size: nat)
    requires SizeOk(size) && raw.Length == Forwarder.DATA_AT + size
    requires forall k :: 0 <= k < raw.Length ==> raw[k] == 0
    modifies raw
    ensures raw[..] == SimPacket(listen, 0, ZERO, size)
  {
    StoreHead(raw);
    ghost var p := raw[..];
    assert p[Forwarder.DATA_AT..] == Zeros(size) && p[..Forwarder.DATA_AT] == raw[..Forwarder.DATA_AT];
    FieldsMakePacket(p, listen, size);
    hide SimPacket, ToLE, Zeros;
    FieldsPut(p, MAGIC, ToLE(listen.addr, 4), ToLE(listen.port, 2), Forwarder.DATA_AT);
    PutField(raw, Forwarder.DATA_AT, MAGIC);
    PutField(raw, ADDR_AT, ToLE(listen.addr, 4));
    PutField(raw, PORT_AT, ToLE(listen.port, 2));
  }

  method PutField(raw: array<Byte>, at: nat, s: seq<Byte>)
    requires at + |s| <= raw.Length
    modifies raw
    ensures raw[..] == old(raw[..])[..at] + s + old(raw[..])[at + |s|..]
  {
    PutBytes(raw, at, s);
    assert old(raw[..])[..at] == old(raw[..at]) && old(raw[..])[at + |s|..] == old(raw[at + |s|..]);
  }

  class Simulator {
    const raw: array<Byte>
    const buf: array<Byte>
    ghost const listen: AddrCache.Peer
    ghost const size: nat

    ghost predicate Valid(seqno: Byte, ts: Timespec)
      reads raw
    {
      && raw != buf && buf.Length == BUF_SIZE
      && SizeOk(size) && raw.Length == Forwarder.DATA_AT + size
      && TimeOk(ts)
      && raw[..] == SimPacket(listen, seqno, ts, size)
    }

    constructor (listen: AddrCache.Peer, size: nat)
      requires SizeOk(size)
      ensures fresh(raw) && fresh(buf) && this.listen == listen && this.size == size
      ensures Valid(0, ZERO)
    {
      this.listen, this.size := listen, size;
      raw := new Byte[Forwarder.DATA_AT + size](_ => 0);
      buf := new Byte[BUF_SIZE](_ => 0);
      new;
      StoreFields(raw, listen, size);
    }

    /** Stamps the packet in place and steps its sequence number. */
    method Stamp(now: Timespec, ghost seqno: Byte, ghost ts: Timespec)
      requires Valid(seqno, ts) && TimeOk(now)
      modifies raw
      ensures Valid(NextSeq(seqno), now)
    {
      ghost var before := raw[..];
      SimPacketFields(listen, seqno, ts, NextSeq(seqno), now, size);
      var stamp := StampBytes(now);
      hide SimPacket, StampBytes;
      Patched(before, stamp, NextSeq(seqno));
      PutBytes(raw, TS_AT, stamp);
      assert raw[SEQ_AT] == raw[..][SEQ_AT] == before[SEQ_AT];
      var next := if raw[SEQ_AT] == 255 then 0 else raw[SEQ_AT] + 1;
      if next == 0 {
        next := 1;
      }
      raw[SEQ_AT] := next;
    }

    /** One send up to the write: the stamped packet, with the next sequence number, framed. */
    method Prepare(now: Timespec, ghost seqno: Byte, ghost ts: Timespec) returns (len: nat)
      requires Valid(seqno, ts) && TimeOk(now)
      modifies raw, buf
      ensures Valid(NextSeq(seqno), now)
      ensures len <= buf.Length && buf[..len] == Encode(raw[..])
    {
      hide SimPacket, Encode;
      Stamp(now, seqno, ts);
      SimFrameFits(listen, NextSeq(seqno), now, size);
      assert raw[..raw.Length] == raw[..];
      len := Packet.FrameEncode(raw, raw.Length, buf);
    }

    /** One send, write loop included; f is its frame. */
    method SendOne(now: Timespec, results: seq<WriteResult>, ghost seqno: Byte, ghost ts: Timespec, ghost f: seq<Byte>)
      returns (out: seq<Byte>, done: bool)
      requires Valid(seqno, ts) && TimeOk(now) && f == Encode(SimPacket(listen, NextSeq(seqno), now, size))
      modifies raw, buf
      ensures Valid(NextSeq(seqno), now)
      ensures out <= f && (done <==> out == f) && (GetsOut(f, results) ==> done)
    {
      var len := Prepare(now, seqno, ts);
      FrameNotEmpty(listen, NextSeq(seqno), now, size);
      hide SimPacket, Encode, Taken, TimeOk;
      out, done := WriteAll(len, results);
    }

    /**
     * The whole sending loop: what goes out is a prefix of the frames of the sends, one after the other,
     * and it is all of them when every write loop gets its frame out.
     */
    method SendAll(times: seq<Timespec>, results: seq<seq<WriteResult>>) returns (out: seq<Byte>, done: bool)
      requires Valid(0, ZERO) && |results| == |times| && AllTimesOk(times)
      modifies raw, buf
      ensures var fs := Frames(listen, size, times);
              && out <= Flatten(fs) && (done ==> out == Flatten(fs))
              && (AllGetOut(fs, results) ==> done)
    {
      out, done := SendEach(times, results, Frames(listen, size, times));
    }

    method SendEach(times: seq<Timespec>, results: seq<seq<WriteResult>>, ghost fs: seq<seq<Byte>>)
      returns (out: seq<Byte>, done: bool)
      requires Valid(0, ZERO) && |results| == |times| == |fs| && AllTimesOk(times)
      requires AreFrames(fs, listen, size, times)
      modifies raw, buf
      ensures out <= Flatten(fs) && (done ==> out == Flatten(fs))
      ensures AllGetOut(fs, results) ==> done
    {
      assert Precedes(0, 0);
      hide *;
      ghost var seqno, ts := 0, ZERO;
      out, done := [], true;
      var k := 0;
      SentNone(fs);
      while k < |times|
        invariant 0 <= k <= |times| && SentFirst(fs, k, out)
        invariant Precedes(seqno, k) && Valid(seqno, ts)
      {
        out, done := SendNth(times, results[k], fs, k, out, seqno, ts);
        if !done {
          StuckAt(fs, results, k);
          return;
        }
        seqno, ts := NextSeq(seqno), times[k];
        k := k + 1;
      }
      SentAll(fs, out);
      done := true;
    }

    method SendNth(
        times: seq<Timespec>, results: seq<WriteResult>, ghost fs: seq<seq<Byte>>, k: nat, before: seq<Byte>,
        ghost seqno: Byte, ghost ts: Timespec)
      returns (out: seq<Byte>, done: bool)
      requires Valid(seqno, ts) && AllTimesOk(times) && AreFrames(fs, listen, size, times)
      requires k < |times| == |fs| && SentFirst(fs, k, before) && Precedes(seqno, k)
      modifies raw, buf
      ensures Valid(NextSeq(seqno), times[k]) && Precedes(NextSeq(seqno), k + 1)
      ensures out <= Flatten(fs) && (done ==> SentFirst(fs, k + 1, out))
      ensures GetsOut(fs[k], results) ==> done
    {
      hide *;
      FrameAt(fs, listen, size, times, k, seqno);
      var sent;
      sent, done := SendOne(times[k], results, seqno, ts, fs[k]);
      SentSoFar(fs, k, before, sent);
      out := before + sent;
    }

    /**
     * The write loop: however write() cuts the frame and however often it is interrupted, what has gone
     * out is a prefix of the frame, as long as what write() took in all, and the loop ends by itself
     * exactly when that is the whole frame.
     */
    method WriteAll(len: nat, results: seq<WriteResult>) returns (out: seq<Byte>, done: bool)
      requires 1 <= len <= buf.Length
      ensures out <= buf[..len] && (done <==> out == buf[..len])
      ensures Failed !in results ==> |out| == if Taken(results) < len then Taken(results) else len
    {
      out, done := [], false;
      var k := 0;
      assert results[..0] == [];
      while k < |results| && !done
        invariant 0 <= k <= |results|
        invariant |out| <= len && out == buf[..|out|] && (done <==> |out| == len)
        invariant |out| == if Taken(results[..k]) < len then Taken(results[..k]) else len
      {
        assert results[..k + 1][..k] == results[..k];
        match results[k] {
          case Interrupted =>
          case Failed =>
            assert results[k] in results;
            return;
          case Wrote(n) =>
            var take := if n <= len - |out| then n else len - |out|;
            out := out + buf[|out|..|out| + take];
            done := |out| == len;
        }
        k := k + 1;
      }
      TakenGrows(results, k);
    }
  }

  lemma {:induction false} FrameNotEmpty(listen: AddrCache.Peer, seqno: Byte, ts: Timespec, size: nat)
    requires SizeOk(size) && TimeOk(ts)
    ensures |Encode(SimPacket(listen, seqno, ts, size))| >= 1
  {
    EncodeTail(SimPacket(listen, seqno, ts, size));
  }

  /** The first k frames have gone out. */
  predicate SentFirst(fs: seq<seq<Byte>>, k: nat, out: seq<Byte>) {
    k <= |fs| && out == Flatten(fs[..k])
  }

  lemma {:induction false} SentNone(fs: seq<seq<Byte>>)
    ensures SentFirst(fs, 0, [])
  {
  }

  lemma {:induction false} SentAll(fs: seq<seq<Byte>>, out: seq<Byte>)
    requires SentFirst(fs, |fs|, out)
    ensures out == Flatten(fs)
  {
    assert fs[..|fs|] == fs;
  }

  predicate AllGetOut(fs: seq<seq<Byte>>, results: seq<seq<WriteResult>>)
    requires |fs| == |results|
  {
    forall k :: 0 <= k < |fs| ==> GetsOut(fs[k], results[k])
  }

  lemma {:induction false} StuckAt(fs: seq<seq<Byte>>, results: seq<seq<WriteResult>>, k: nat)
    requires k < |fs| == |results| && !GetsOut(fs[k], results[k])
    ensures !AllGetOut(fs, results)
  {
  }

  /** After the first k frames and part of the next one. */
  lemma {:induction false} SentSoFar(fs: seq<seq<Byte>>, k: nat, out: seq<Byte>, sent: seq<Byte>)
    requires k < |fs| && SentFirst(fs, k, out) && sent <= fs[k]
    ensures out + sent <= Flatten(fs)
    ensures sent == fs[k] ==> SentFirst(fs, k + 1, out + sent)
  {
    FlattenNext(fs, k);
    hide Flatten;
    assert out + sent <= out + fs[k];
  }

  lemma {:induction false} FlattenNext(fs: seq<seq<Byte>>, k: nat)
    requires k < |fs|
    ensures Flatten(fs[..k]) + fs[k] == Flatten(fs[..k + 1]) <= Flatten(fs)
  {
    if k + 1 == |fs| {
      assert fs[..k + 1] == fs;
    } else {
      var g := fs[..|fs| - 1];
      FlattenNext(g, k);
      assert g[..k] == fs[..k] && g[..k + 1] == fs[..k + 1];
    }
  }

  /** write() does not fail and takes at least the whole frame. */
  predicate GetsOut(f: seq<Byte>, results: seq<WriteResult>) {
    Failed !in results && Taken(results) >= |f|
  }

  lemma {:induction false} FrameAt(
      fs: seq<seq<Byte>>, listen: AddrCache.Peer, size: nat, times: seq<Timespec>, k: nat, seqno: Byte)
    requires AllTimesOk(times) && AreFrames(fs, listen, size, times)
    requires k < |times| && Precedes(seqno, k)
    ensures SizeOk(size) && TimeOk(times[k]) && k < |fs|
    ensures fs[k] == Encode(SimPacket(listen, NextSeq(seqno), times[k], size))
    ensures Precedes(NextSeq(seqno), k + 1)
  {
    SeqNext(seqno, k);
  }

  /** The bytes write() took over a list of results. */
  function Taken(results: seq<WriteResult>): nat {
    if results == [] then 0
    else
      var r := results[|results| - 1];
      Taken(results[..|results| - 1]) + if r.Wrote? then r.n else 0
  }

  lemma {:induction false} TakenGrows(results: seq<WriteResult>, k: nat)
    requires k <= |results|
    ensures Taken(results[..k]) <= Taken(results)
    ensures k == |results| ==> results[..k] == results
  {
    if k < |results| {
      TakenGrows(results[..|results| - 1], k);
      assert results[..|results| - 1][..k] == results[..k];
    } else {
      assert results[..k] == results;
    }
  }

  // ---- Answers

  datatype Answer = Ignored | Answered(relay: Relay)

  /** An answer counts if it is a whole relay message that carries our own address and port. */
  function AnswerOf(buf: seq<Byte>, len: int, listen: AddrCache.Peer): Answer
    requires Received(buf, len)
  {
    if len == HeaderLen(buf) && len >= RELAY_MSG && HeaderType(buf) == MSG_TYPE_RELAY then
      var r := ReadRelay(buf[PKT_MSG..RELAY_MSG]);
      if AddrCache.Peer(r.addr, r.port) == listen then Answered(r) else Ignored
    else Ignored
  }

  /** An answer counts exactly when it is a whole relay datagram whose record names both our address and our port. */
  lemma {:induction false} AnswerCounts(buf: seq<Byte>, len: int, listen: AddrCache.Peer)
    requires Received(buf, len)
    ensures AnswerOf(buf, len, listen).Answered? <==>
            && len >= 34 && len == buf[0] + Weighed(buf[1], 0x100) && buf[2] % 4 == 1
            && listen.addr == buf[11] + Weighed(buf[12], 0x100) + Weighed(buf[13], 0x1_0000) + Weighed(buf[14], 0x100_0000)
            && listen.port == buf[15] + Weighed(buf[16], 0x100)
    ensures AnswerOf(buf, len, listen).Answered? ==> AnswerOf(buf, len, listen).relay == ReadRelay(buf[11..34])
  {
    var s := buf[11..34];
    LittleValue(buf[..2]);
    RelayFields(s);
    assert s[0] == buf[11] && s[1] == buf[12] && s[2] == buf[13] && s[3] == buf[14] && s[4] == buf[15] && s[5] == buf[16];
    hide FromLE, ToLE, ReadRelay, Weighed;
  }

  /** The receiving thread's checks on one datagram, and the round-trip time of an answer that passes. */
  method OnDatagram(msg: array<Byte>, len: int, listen: AddrCache.Peer, now: Timespec, stats: RttStats)
    returns (a: Answer)
    requires Received(msg[..], len)
    modifies stats, stats.sum
    ensures a == AnswerOf(old(msg[..]), len, listen)
    ensures a.Ignored? ==> stats.cnt == old(stats.cnt) && stats.sum.Value() == old(stats.sum.Value())
    ensures a.Answered? ==>
              stats.cnt == AsU32(old(stats.cnt) + 1)
              && (old(Normal(stats.sum.Value())) && Sane(Sample(a.relay.ts, now)) ==> Normal(stats.sum.Value()))
              && Ns(stats.sum.Value()) == old(Ns(stats.sum.Value())) + Ns(now) - Ns(a.relay.ts)
  {
    if AsSize(len) < RELAY_MSG || len != HeaderLen(msg[..]) {
      return Ignored;
    }
    if HeaderType(msg[..]) != MSG_TYPE_RELAY {
      return Ignored;
    }
    var r := ReadRelay(msg[PKT_MSG..RELAY_MSG]);
    if r.port != listen.port || r.addr != listen.addr {
      return Ignored;
    }
    assert msg[..][PKT_MSG..RELAY_MSG] == msg[PKT_MSG..RELAY_MSG];
    a := Answered(r);
    stats.Record(Sample(r.ts, now));
  }
}
