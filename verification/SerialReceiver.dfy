/**
 * The receive loop: serial reads accumulate in one buffer, every read is followed by one attempt to
 * decode the whole buffer, and consumed bytes are shifted out.
 */
module SerialReceiver {
  import opened Bytes
  import opened Framing
  import opened Packet

  /** PKT_ERROR as the code defines it: 65535 cast to 8 bits. A consumed count of 255 looks like an error. */
  const PKT_ERROR := 255

  /** The loop's state between reads: buffered bytes, packets handed on so far, and whether it still runs. */
  datatype Rx = Rx(buf: seq<Byte>, delivered: seq<seq<Byte>>, running: bool)

  const IDLE := Rx([], [], true)

  /** The buffer a read appends to: a full one is thrown away first. */
  function Room(buf: seq<Byte>): seq<Byte> {
    if |buf| >= UART_MAX_LEN then [] else buf
  }

  /** What one decoding attempt hands on. */
  function Accepted(p: seq<Byte>): seq<seq<Byte>> {
    if Acceptable(p) then [p] else []
  }

  function OnRead(st: Rx, chunk: seq<Byte>): Rx {
    if !st.running then st
    else
      var b := Room(st.buf) + chunk;
      var d := Decode(b);
      if d.consumed == PKT_ERROR then Rx(Resynced(b), st.delivered, false)
      else Rx(Resynced(b)[d.consumed..], st.delivered + Accepted(d.payload), true)
  }

  function Run(st: Rx, chunks: seq<seq<Byte>>): Rx {
    if chunks == [] then st else OnRead(Run(st, chunks[..|chunks| - 1]), chunks[|chunks| - 1])
  }

  /** Every chunk is something read() may return at that point: at least a byte, at most the free room. */
  predicate Readable(st: Rx, chunks: seq<seq<Byte>>) {
    chunks == []
    || (&& Readable(st, chunks[..|chunks| - 1])
        && var c, s := chunks[|chunks| - 1], Run(st, chunks[..|chunks| - 1]);
           1 <= |c| <= UART_MAX_LEN - |Room(s.buf)|)
  }

  /** chunks cuts w into non-empty pieces. */
  predicate Splits(chunks: seq<seq<Byte>>, w: seq<Byte>) {
    Flatten(chunks) == w && forall k :: 0 <= k < |chunks| ==> chunks[k] != []
  }

  /** A payload whose frame the receive loop can take: it fits, is not 255 bytes long, and decodes. */
  predicate Receivable(p: seq<Byte>) {
    && |Encode(p)| <= UART_MAX_LEN
    && |Encode(p)| != PKT_ERROR
    && Checksum(p) != ESC
  }

  /** What read() reports: bytes, an interruption to retry, or the end (nothing to read, or an error). */
  datatype Reading = Data(bytes: seq<Byte>) | Interrupted | Ended

  /** The chunks that were read before the end. */
  function Chunks(rs: seq<Reading>): seq<seq<Byte>> {
    if rs == [] then []
    else
      var n := |rs| - 1;
      Chunks(rs[..n]) + if rs[n].Data? && Ended !in rs[..n] then [rs[n].bytes] else []
  }

  // ---- The loop itself

  class Receiver {
    const buf: array<Byte>
    const pkt: PacketBuffer
    var len: nat

    ghost predicate Valid()
      reads this, pkt
    {
      && buf != pkt.raw
      && buf.Length == UART_MAX_LEN
      && pkt.raw.Length >= UART_MAX_LEN - FRAME_LEN_MIN
      && len <= UART_MAX_LEN
    }

    constructor ()
      ensures Valid() && fresh(buf) && fresh(pkt) && fresh(pkt.raw) && len == 0
    {
      buf := new Byte[UART_MAX_LEN](_ => 0);
      pkt := new PacketBuffer(UART_MAX_LEN - LEN_FIELD);
      len := 0;
    }

    /** The top of the loop: a full buffer is thrown away before the read. */
    method MakeRoom()
      requires Valid()
      modifies this`len
      ensures Valid() && buf[..len] == Room(old(buf[..len]))
    {
      if len >= UART_MAX_LEN {
        len := 0;
      }
    }

    /** The rest of one pass, for a read that returned chunk. */
    method OnChunk(chunk: seq<Byte>, ghost st: Rx) returns (stop: bool, out: seq<seq<Byte>>)
      requires Valid() && st.running && Room(buf[..len]) == Room(st.buf)
      requires 1 <= |chunk| <= UART_MAX_LEN - |Room(st.buf)|
      modifies this, buf, pkt, pkt.raw
      ensures Valid()
      ensures OnRead(st, chunk) == Rx(buf[..len], st.delivered + out, !stop)
    {
      hide Decode, Resynced, FirstSync, Acceptable;
      MakeRoom();
      PutBytes(buf, len, chunk);
      len := len + |chunk|;
      ghost var b := buf[..len];
      assert b == Room(st.buf) + chunk;
      var rlen := PktDecode(buf, len, pkt);
      assert buf[..len] == Resynced(b);
      if rlen == PKT_ERROR {
        return true, [];
      }
      assert buf[rlen..len] == Resynced(b)[rlen..];
      if rlen != 0 && len - rlen != 0 {
        MoveToFront(buf, rlen, len);
      }
      len := len - rlen;
      stop, out := false, if pkt.len != 0 then [pkt.Contents()] else [];
    }

    /** The whole loop, over whatever read() reports in turn. */
    method Receive(rs: seq<Reading>) returns (out: seq<seq<Byte>>)
      requires Valid() && len == 0 && Readable(IDLE, Chunks(rs))
      modifies this, buf, pkt, pkt.raw
      ensures Valid()
      ensures var end := Run(IDLE, Chunks(rs)); out == end.delivered && Room(buf[..len]) == Room(end.buf)
    {
      hide OnRead, Room, Readable, Run, Chunks;
      out := [];
      var k := 0;
      StartsIdle(rs);
      while k < |rs|
        invariant 0 <= k <= |rs| && Valid() && Ended !in rs[..k]
        invariant Run(IDLE, Chunks(rs[..k])).running && Run(IDLE, Chunks(rs[..k])).delivered == out
        invariant Room(buf[..len]) == Room(Run(IDLE, Chunks(rs[..k])).buf)
      {
        NextReading(rs, k);
        match rs[k] {
          case Ended =>
            StaysSo(rs, k);
            return;
          case Interrupted =>
            RoomTwice(buf[..len]);
            MakeRoom();
          case Data(bytes) =>
            var stop, more := OnChunk(bytes, Run(IDLE, Chunks(rs[..k])));
            out := out + more;
            if stop {
              StaysSo(rs, k + 1);
              return;
            }
        }
        k := k + 1;
      }
      assert rs[..k] == rs;
    }
  }

  lemma {:induction false} StartsIdle(rs: seq<Reading>)
    ensures Run(IDLE, Chunks(rs[..0])) == IDLE
  {
  }

  lemma {:induction false} RoomTwice(b: seq<Byte>)
    ensures Room(Room(b)) == Room(b)
  {
  }

  lemma {:induction false} ChunksPrefix(rs: seq<Reading>, k: nat)
    requires k <= |rs|
    ensures Chunks(rs[..k]) <= Chunks(rs)
    ensures Ended in rs[..k] ==> Chunks(rs[..k]) == Chunks(rs)
  {
    if k == |rs| {
      assert rs[..k] == rs;
    } else {
      ChunksPrefix(rs[..|rs| - 1], k);
      assert rs[..|rs| - 1][..k] == rs[..k];
      assert forall r :: r in rs[..k] ==> r in rs[..|rs| - 1];
    }
  }

  /** What one more reading does to the run, and that it fits the room. */
  lemma {:induction false} NextReading(rs: seq<Reading>, k: nat)
    requires k < |rs| && Ended !in rs[..k] && Readable(IDLE, Chunks(rs))
    ensures rs[k] != Ended ==> Ended !in rs[..k + 1]
    ensures !rs[k].Data? ==> Chunks(rs[..k + 1]) == Chunks(rs[..k])
    ensures rs[k].Data? ==>
              var st := Run(IDLE, Chunks(rs[..k]));
              && Run(IDLE, Chunks(rs[..k + 1])) == OnRead(st, rs[k].bytes)
              && 1 <= |rs[k].bytes| <= UART_MAX_LEN - |Room(st.buf)|
  {
    ChunksNext(rs, k);
    hide *;
    if rs[k].Data? {
      var c := Chunks(rs[..k]);
      RunNext(Chunks(rs), |c|);
    }
  }

  lemma {:induction false} ChunksNext(rs: seq<Reading>, k: nat)
    requires k < |rs| && Ended !in rs[..k]
    ensures rs[k] != Ended ==> Ended !in rs[..k + 1]
    ensures !rs[k].Data? ==> Chunks(rs[..k + 1]) == Chunks(rs[..k])
    ensures rs[k].Data? ==>
              var c := Chunks(rs[..k]);
              |c| < |Chunks(rs)| && Chunks(rs)[..|c|] == c && Chunks(rs)[|c|] == rs[k].bytes
              && Chunks(rs)[..|c| + 1] == Chunks(rs[..k + 1])
  {
    assert rs[..k + 1][..k] == rs[..k] && rs[..k + 1] == rs[..k] + [rs[k]];
    ChunksPrefix(rs, k + 1);
  }

  lemma {:induction false} RunNext(chunks: seq<seq<Byte>>, k: nat)
    requires k < |chunks| && Readable(IDLE, chunks)
    ensures Run(IDLE, chunks[..k + 1]) == OnRead(Run(IDLE, chunks[..k]), chunks[k])
    ensures 1 <= |chunks[k]| <= UART_MAX_LEN - |Room(Run(IDLE, chunks[..k]).buf)|
  {
    PrefixReadable(chunks, k + 1);
    hide OnRead, Room;
    assert chunks[..k + 1][..k] == chunks[..k];
  }

  /** Once the loop has left, later readings change nothing. */
  lemma {:induction false} StaysSo(rs: seq<Reading>, k: nat)
    requires k <= |rs| && (!Run(IDLE, Chunks(rs[..k])).running || (k < |rs| && rs[k] == Ended && Ended !in rs[..k]))
    ensures Run(IDLE, Chunks(rs)) == Run(IDLE, Chunks(rs[..k]))
  {
    ChunksPrefix(rs, k);
    var c := Chunks(rs[..k]);
    assert Chunks(rs)[..|c|] == c;
    hide *;
    if !Run(IDLE, c).running {
      StoppedStays(Chunks(rs), |c|);
    } else {
      EndReached(rs, k);
    }
  }

  lemma {:induction false} EndReached(rs: seq<Reading>, k: nat)
    requires k < |rs| && rs[k] == Ended
    ensures Chunks(rs) == Chunks(rs[..k])
  {
    ChunksPrefix(rs, k + 1);
    assert rs[..k + 1][..k] == rs[..k];
    assert rs[..k + 1][k] == Ended;
  }

  lemma {:induction false} PrefixReadable(chunks: seq<seq<Byte>>, k: nat)
    requires k <= |chunks| && Readable(IDLE, chunks)
    ensures Readable(IDLE, chunks[..k])
  {
    if k == |chunks| {
      assert chunks[..k] == chunks;
    } else {
      PrefixReadable(chunks[..|chunks| - 1], k);
      assert chunks[..|chunks| - 1][..k] == chunks[..k];
    }
  }

  lemma {:induction false} StoppedStays(chunks: seq<seq<Byte>>, k: nat)
    requires k <= |chunks| && !Run(IDLE, chunks[..k]).running
    ensures Run(IDLE, chunks) == Run(IDLE, chunks[..k])
  {
    if k == |chunks| {
      assert chunks[..k] == chunks;
    } else {
      assert chunks[..|chunks| - 1][..k] == chunks[..k];
      StoppedStays(chunks[..|chunks| - 1], k);
    }
  }

  // ---- Reassembly

  lemma {:induction false} RunAppend(st: Rx, a: seq<seq<Byte>>, b: seq<seq<Byte>>)
    ensures Run(st, a + b) == Run(Run(st, a), b)
  {
    hide OnRead;
    if b == [] {
      assert a + b == a;
    } else {
      RunAppend(st, a, b[..|b| - 1]);
      assert (a + b)[..|a + b| - 1] == a + b[..|b| - 1];
    }
  }

  lemma {:induction false} FlattenPrefix(chunks: seq<seq<Byte>>, k: nat)
    requires k <= |chunks|
    ensures Flatten(chunks[..k]) <= Flatten(chunks)
    ensures (forall j :: 0 <= j < |chunks| ==> chunks[j] != []) && k < |chunks|
            ==> |Flatten(chunks[..k])| < |Flatten(chunks)|
  {
    if k == |chunks| {
      assert chunks[..k] == chunks;
    } else {
      FlattenPrefix(chunks[..|chunks| - 1], k);
      assert chunks[..|chunks| - 1][..k] == chunks[..k];
    }
  }

  /** While a frame is still incomplete its bytes pile up and nothing is handed on. */
  lemma {:induction false} Accumulates(st: Rx, p: seq<Byte>, chunks: seq<seq<Byte>>, k: nat)
    requires |Encode(p)| <= UART_MAX_LEN && Splits(chunks, Encode(p))
    requires k < |chunks| && st.buf == [] && st.running
    ensures Run(st, chunks[..k]) == st.(buf := Flatten(chunks[..k]))
    ensures |Flatten(chunks[..k])| < UART_MAX_LEN
  {
    FlattenPrefix(chunks, k);
    if k > 0 {
      hide Encode, Decode, Resynced, Flatten, Run, Acceptable;
      Accumulates(st, p, chunks, k - 1);
      var b := Flatten(chunks[..k]);
      EncodeBound(p);
      PrefixIncomplete(p, |b|);
      NoResync(p, |b|);
      FlattenLast(chunks, k);
      assert b == Encode(p)[..|b|];
      PilesUp(st, chunks, k);
    }
  }

  /** One read that leaves the frame incomplete. */
  lemma {:induction false} PilesUp(st: Rx, chunks: seq<seq<Byte>>, k: nat)
    requires 0 < k <= |chunks| && st.running && |Flatten(chunks[..k - 1])| < UART_MAX_LEN
    requires Run(st, chunks[..k - 1]) == st.(buf := Flatten(chunks[..k - 1]))
    requires Decode(Flatten(chunks[..k])) == INCOMPLETE
    requires Resynced(Flatten(chunks[..k])) == Flatten(chunks[..k])
    ensures Run(st, chunks[..k]) == st.(buf := Flatten(chunks[..k]))
  {
    hide Decode, Resynced, Flatten;
    FlattenLast(chunks, k);
    assert chunks[..k][..k - 1] == chunks[..k - 1];
    assert Accepted([]) == [];
  }

  lemma {:induction false} FlattenLast(chunks: seq<seq<Byte>>, k: nat)
    requires 0 < k <= |chunks|
    ensures Flatten(chunks[..k]) == Flatten(chunks[..k - 1]) + chunks[k - 1]
  {
    assert chunks[..k][..k - 1] == chunks[..k - 1];
  }

  lemma {:induction false} EncodeBound(p: seq<Byte>)
    ensures |p| < |Encode(p)|
  {
    StuffAllSize(LengthBytes(|p|) + p);
  }

  lemma {:induction false} NoResync(p: seq<Byte>, k: nat)
    requires k <= |Encode(p)|
    ensures Resynced(Encode(p)[..k]) == Encode(p)[..k]
  {
    var s := Encode(p)[..k];
    if k > 0 {
      assert s[0] == SYNC;
      assert FirstSync(s) == 0;
      assert s[0..] + s[k..] == s;
    }
  }

  /** The read that completes a frame: exactly one attempt sees it whole. */
  lemma {:induction false} FrameCompleted(st: Rx, p: seq<Byte>, chunks: seq<seq<Byte>>)
    requires |Encode(p)| <= UART_MAX_LEN && Splits(chunks, Encode(p)) && st.buf == [] && st.running
    ensures Run(st, chunks) ==
            if Checksum(p) == ESC then st.(buf := Encode(p))
            else if |Encode(p)| == PKT_ERROR then st.(buf := Encode(p), running := false)
            else st.(delivered := st.delivered + Accepted(p))
  {
    EncodeBound(p);
    var k := |chunks| - 1;
    if chunks != [] {
      Accumulates(st, p, chunks, k);
      assert Room(Flatten(chunks[..k])) + chunks[k] == Encode(p);
      RoundTrip(p);
      assert Encode(p)[..|Encode(p)|] == Encode(p);
      NoResync(p, |Encode(p)|);
    }
  }

  /**
   * For one frame that fits the buffer, cut any way at all: the loop hands its payload on and is ready
   * again with an empty buffer exactly when the payload is receivable and acceptable.
   */
  lemma {:induction false} FrameDelivered(p: seq<Byte>, chunks: seq<seq<Byte>>)
    requires |Encode(p)| <= UART_MAX_LEN && Splits(chunks, Encode(p))
    ensures Run(IDLE, chunks) == Rx([], [p], true) <==> Receivable(p) && Acceptable(p)
    ensures |Encode(p)| == PKT_ERROR && Checksum(p) != ESC ==> !Run(IDLE, chunks).running
    ensures Checksum(p) == ESC ==> Run(IDLE, chunks) == Rx(Encode(p), [], true)
  {
    FrameCompleted(IDLE, p, chunks);
    EncodeBound(p);
  }

  /**
   * A frame that ends the loop without being delivered: it carries an acceptable packet, decodes, and is 255
   * bytes long.
   */
  lemma {:induction false} GoodFrameEndsLoop(chunks: seq<seq<Byte>>)
    requires Splits(chunks, Encode(Unlucky()))
    ensures |Encode(Unlucky())| == PKT_ERROR && Acceptable(Unlucky()) && Checksum(Unlucky()) != ESC
    ensures !Run(IDLE, chunks).running && Run(IDLE, chunks).delivered == []
  {
    UnluckySize();
    UnluckySum();
    hide Encode, Unlucky, Run, Checksum;
    FrameCompleted(IDLE, Unlucky(), chunks);
  }

  /** A receive indication of 251 bytes. */
  function Unlucky(): (p: seq<Byte>)
    ensures |p| == 251 && p[0] == TYPE_RX_IND && forall k :: 1 <= k < |p| ==> p[k] == 0
  {
    [TYPE_RX_IND] + Zeros(250)
  }

  lemma {:induction false} UnluckySize()
    ensures |Encode(Unlucky())| == 255
  {
    var p := Unlucky();
    EncodeTail(p);
    PlainUnstuffed(LengthBytes(|p|) + p);
    hide *;
  }

  lemma {:induction false} UnluckySum()
    ensures Checksum(Unlucky()) == 255 - TYPE_RX_IND
  {
    SumConcat([TYPE_RX_IND], Zeros(250));
    ZerosSum(250);
    assert [TYPE_RX_IND][..0] == [];
    hide Zeros, Flatten;
    assert Sum([TYPE_RX_IND]) == Sum([]) + TYPE_RX_IND;
  }

  /** The packets of a list of payloads that the loop hands on, in order. */
  function AllAccepted(ps: seq<seq<Byte>>): seq<seq<Byte>> {
    if ps == [] then [] else AllAccepted(ps[..|ps| - 1]) + Accepted(ps[|ps| - 1])
  }

  /**
   * Reassembly: for any list of receivable payloads and any cutting of their frames into reads in which
   * no read straddles two frames, the loop hands on exactly the acceptable ones, in order, and ends with
   * an empty buffer, still running.
   */
  lemma {:induction false} StreamReassembled(ps: seq<seq<Byte>>, cuts: seq<seq<seq<Byte>>>)
    requires |cuts| == |ps|
    requires forall k :: 0 <= k < |ps| ==> Receivable(ps[k]) && Splits(cuts[k], Encode(ps[k]))
    ensures Run(IDLE, Flatten(cuts)) == Rx([], AllAccepted(ps), true)
  {
    if ps == [] {
    } else {
      var n := |ps| - 1;
      StreamReassembled(ps[..n], cuts[..n]);
      RunAppend(IDLE, Flatten(cuts[..n]), cuts[n]);
      FrameCompleted(Run(IDLE, Flatten(cuts[..n])), ps[n], cuts[n]);
    }
  }

  lemma {:induction false} AllAcceptableDelivered(ps: seq<seq<Byte>>)
    requires forall k :: 0 <= k < |ps| ==> Acceptable(ps[k])
    ensures AllAccepted(ps) == ps
  {
    if ps == [] {
    } else {
      AllAcceptableDelivered(ps[..|ps| - 1]);
      assert ps == ps[..|ps| - 1] + [ps[|ps| - 1]];
    }
  }

  lemma {:induction false} ReadableAppend(st: Rx, a: seq<seq<Byte>>, b: seq<seq<Byte>>)
    ensures Readable(st, a + b) <==> Readable(st, a) && Readable(Run(st, a), b)
  {
    hide OnRead, Room;
    if b == [] {
      assert a + b == a;
    } else {
      ReadableAppend(st, a, b[..|b| - 1]);
      RunAppend(st, a, b[..|b| - 1]);
      assert (a + b)[..|a + b| - 1] == a + b[..|b| - 1];
    }
  }

  lemma {:induction false} FrameReadable(st: Rx, p: seq<Byte>, chunks: seq<seq<Byte>>, k: nat)
    requires |Encode(p)| <= UART_MAX_LEN && Splits(chunks, Encode(p)) && st.buf == [] && st.running
    requires k <= |chunks|
    ensures Readable(st, chunks[..k])
  {
    if k > 0 {
      FrameReadable(st, p, chunks, k - 1);
      NextReadable(st, p, chunks, k - 1);
      hide *;
      ReadableNext(st, chunks, k - 1);
    }
  }

  lemma {:induction false} NextReadable(st: Rx, p: seq<Byte>, chunks: seq<seq<Byte>>, k: nat)
    requires |Encode(p)| <= UART_MAX_LEN && Splits(chunks, Encode(p)) && st.buf == [] && st.running
    requires k < |chunks|
    ensures 1 <= |chunks[k]| <= UART_MAX_LEN - |Room(Run(st, chunks[..k]).buf)|
  {
    hide Encode, Run, Flatten;
    Accumulates(st, p, chunks, k);
    FlattenPrefix(chunks, k + 1);
    FlattenLast(chunks, k + 1);
  }

  lemma {:induction false} ReadableNext(st: Rx, chunks: seq<seq<Byte>>, k: nat)
    requires k < |chunks| && Readable(st, chunks[..k])
    requires 1 <= |chunks[k]| <= UART_MAX_LEN - |Room(Run(st, chunks[..k]).buf)|
    ensures Readable(st, chunks[..k + 1])
  {
    hide Run, Room;
    assert chunks[..k + 1][..k] == chunks[..k];
  }

  /** Every read of such a stream is one the free room allows, so the reassembly applies to the real loop. */
  lemma {:induction false} StreamReadable(ps: seq<seq<Byte>>, cuts: seq<seq<seq<Byte>>>)
    requires |cuts| == |ps|
    requires forall k :: 0 <= k < |ps| ==> Receivable(ps[k]) && Splits(cuts[k], Encode(ps[k]))
    ensures Readable(IDLE, Flatten(cuts))
  {
    if ps == [] {
    } else {
      var n := |ps| - 1;
      StreamReadable(ps[..n], cuts[..n]);
      StreamReassembled(ps[..n], cuts[..n]);
      ReadableAppend(IDLE, Flatten(cuts[..n]), cuts[n]);
      FrameReadable(Run(IDLE, Flatten(cuts[..n])), ps[n], cuts[n], |cuts[n]|);
      assert cuts[n][..|cuts[n]|] == cuts[n];
    }
  }

  // ---- From any state the loop is ready in

  /** The loop runs, and its next read starts on an empty buffer: nothing is left over, or the buffer is full. */
  predicate Ready(st: Rx) {
    st.running && (st.buf == [] || |st.buf| >= 2048)
  }

  /** A full buffer counts for nothing. */
  lemma {:induction false} FullIsEmpty(st: Rx, chunks: seq<seq<Byte>>)
    requires Ready(st) && chunks != []
    ensures Run(st, chunks) == Run(st.(buf := []), chunks)
    ensures Readable(st, chunks) <==> Readable(st.(buf := []), chunks)
  {
    var n := |chunks| - 1;
    if n == 0 {
      assert chunks[..0] == [];
      assert Run(st, []) == st;
    } else {
      hide OnRead, Room;
      FullIsEmpty(st, chunks[..n]);
    }
  }

  /**
   * Recovery: whatever fills the buffer, the next receivable and acceptable frame, cut into reads in any
   * way, is delivered, and the loop is ready again with an empty buffer.
   */
  lemma {:induction false} FrameRecovers(st: Rx, p: seq<Byte>, chunks: seq<seq<Byte>>)
    requires Ready(st) && Receivable(p) && Acceptable(p) && Splits(chunks, Encode(p))
    ensures Run(st, chunks) == Rx([], st.delivered + [p], true) && Readable(st, chunks)
  {
    EncodeBound(p);
    FullIsEmpty(st, chunks);
    var empty := st.(buf := []);
    FrameCompleted(empty, p, chunks);
    FrameReadable(empty, p, chunks, |chunks|);
    assert chunks[..|chunks|] == chunks;
  }

  /** The same for a whole stream of frames. */
  lemma {:induction false} StreamRecovers(st: Rx, ps: seq<seq<Byte>>, cuts: seq<seq<seq<Byte>>>)
    requires Ready(st) && |cuts| == |ps| > 0
    requires forall k :: 0 <= k < |ps| ==> Receivable(ps[k]) && Acceptable(ps[k]) && Splits(cuts[k], Encode(ps[k]))
    ensures Run(st, Flatten(cuts)) == Rx([], st.delivered + ps, true) && Readable(st, Flatten(cuts))
  {
    var n := |ps| - 1;
    assert Flatten(cuts) == Flatten(cuts[..n]) + cuts[n] && ps[..n] + [ps[n]] == ps;
    hide *;
    if n > 0 {
      StreamRecovers(st, ps[..n], cuts[..n]);
    } else {
      NothingRead(st, cuts[..n]);
    }
    OneMoreFrame(st, Flatten(cuts[..n]), ps[..n], ps[n], cuts[n]);
  }

  lemma {:induction false} NothingRead(st: Rx, cuts: seq<seq<seq<Byte>>>)
    requires cuts == []
    ensures Flatten(cuts) == [] && Run(st, Flatten(cuts)) == st && Readable(st, Flatten(cuts))
  {
  }

  lemma {:induction false} OneMoreFrame(
      st: Rx, before: seq<seq<Byte>>, ps: seq<seq<Byte>>, p: seq<Byte>, chunks: seq<seq<Byte>>)
    requires Receivable(p) && Acceptable(p) && Splits(chunks, Encode(p)) && Readable(st, before)
    requires var u := Run(st, before); Ready(u) && u.delivered == st.delivered + ps
    ensures Run(st, before + chunks) == Rx([], st.delivered + (ps + [p]), true) && Readable(st, before + chunks)
  {
    hide *;
    FrameRecovers(Run(st, before), p, chunks);
    RunAppend(st, before, chunks);
    ReadableAppend(st, before, chunks);
    assert st.delivered + ps + [p] == st.delivered + (ps + [p]);
  }

  // ---- What one read can do besides

  /** A read that completes a frame behind junk: the frame is delivered, and as many bytes as the junk had stay behind. */
  lemma {:induction false} JunkLeavesBytes(st: Rx, chunk: seq<Byte>, junk: seq<Byte>, p: seq<Byte>)
    requires st.running && Room(st.buf) + chunk == junk + Encode(p)
    requires 0x7E !in junk && Receivable(p)
    ensures OnRead(st, chunk) == Rx((junk + Encode(p))[|Encode(p)|..], st.delivered + Accepted(p), true)
  {
    var b := junk + Encode(p);
    EncodeBound(p);
    EncodeTail(p);
    Resynchronises(junk, p);
    FirstSyncAfter(junk, Encode(p));
    assert b[|junk|..] == Encode(p);
    assert Resynced(b) == Encode(p) + b[|Encode(p)|..];
  }

  /**
   * A buffer of four or more bytes without SYNC is thrown away, except that 255 such bytes end the loop;
   * fewer than four bytes wait.
   */
  lemma {:induction false} NoiseDiscarded(st: Rx, chunk: seq<Byte>)
    requires st.running && 0x7E !in Room(st.buf) + chunk
    ensures var b := Room(st.buf) + chunk;
            OnRead(st, chunk) == if |b| < 4 then st.(buf := b)
                                 else if |b| == 255 then st.(buf := b, running := false)
                                 else st.(buf := [])
  {
    NoSyncTrashed(Room(st.buf) + chunk);
    assert Accepted([]) == [];
  }

  /** A read that runs on into the next frame: nothing is handed on and everything stays. */
  lemma {:induction false} StraddlingWaits(st: Rx, chunk: seq<Byte>, p: seq<Byte>, tail: seq<Byte>)
    requires st.running && Room(st.buf) + chunk == Encode(p) + tail
    requires |p| < 0x1_0000 && tail != [] && tail[0] == 0x7E
    ensures OnRead(st, chunk) == st.(buf := Encode(p) + tail)
  {
    var b := Encode(p) + tail;
    StraddlingIncomplete(p, tail);
    EncodeTail(p);
    assert b[0] == SYNC && FirstSync(b) == 0;
    assert b[0..] + b[|b|..] == b;
    assert Accepted([]) == [];
  }

  /** Which frames the loop can take, in numbers. */
  lemma {:induction false} ReceivableExactly(p: seq<Byte>)
    ensures Receivable(p) <==> |Encode(p)| <= 2048 && |Encode(p)| != 255 && Sum(p) % 256 != 0x82
  {
  }
}
