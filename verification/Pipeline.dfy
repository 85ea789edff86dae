/** The whole way of a relay packet: simulated sender, serial line, forwarder, relay, and back to the sender. */
module Pipeline {
  import opened Bytes
  import opened Clock
  import opened Messages
  import opened Sender
  import opened SerialReceiver
  import AddrCache
  import Dedup
  import Destination
  import ExactlyOnce
  import Forwarder
  import Framing
  import Osc
  import OscBridge
  import Packet

  /** The relay record of the k-th send. */
  function Record(listen: AddrCache.Peer, k: nat, ts: Timespec): Relay {
    Relay(listen.addr, listen.port, SeqOf(k), ts)
  }

  function Padding(size: nat): seq<Byte>
    requires SizeOk(size)
  {
    Zeros(size - RELAY_DATA)
  }

  /** The message the forwarder makes of a send. */
  function Forwarded(listen: AddrCache.Peer, size: nat, k: nat, ts: Timespec): (m: Message)
    requires SizeOk(size) && TimeOk(ts)
    ensures Proper(m)
  {
    Relayed(SIM_SRC, RelayBytes(Record(listen, k, ts)), Padding(size))
  }

  lemma {:induction false} SimAcceptable(listen: AddrCache.Peer, seqno: Byte, ts: Timespec, size: nat)
    requires SizeOk(size) && TimeOk(ts)
    ensures Packet.Acceptable(SimPacket(listen, seqno, ts, size))
  {
  }

  /**
   * Over the serial line: whatever the reads of the bytes the sender puts out, the receive loop delivers
   * exactly the packets sent, in order.
   */
  lemma {:induction false} SendsReceived(
      listen: AddrCache.Peer, size: nat, times: seq<Timespec>, cuts: seq<seq<seq<Byte>>>)
    requires SizeOk(size) && |cuts| == |times| && forall k :: 0 <= k < |times| ==> TimeOk(times[k])
    requires forall k :: 0 <= k < |times| ==>
               Receivable(Sends(listen, size, times)[k])
               && Splits(cuts[k], Framing.Encode(Sends(listen, size, times)[k]))
    ensures Flatten(Flatten(cuts)) == Flatten(Frames(listen, size, times))
    ensures Readable(IDLE, Flatten(cuts))
    ensures Run(IDLE, Flatten(cuts)) == Rx([], Sends(listen, size, times), true)
  {
    var ps := Sends(listen, size, times);
    forall k | 0 <= k < |ps| ensures Packet.Acceptable(ps[k]) {
      SimAcceptable(listen, SeqOf(k), times[k], size);
    }
    var frames := Frames(listen, size, times);
    StreamReadable(ps, cuts);
    StreamReassembled(ps, cuts);
    AllAcceptableDelivered(ps);
    hide *;
    SameBytes(cuts, frames);
  }

  /** Cutting frames into reads leaves the bytes on the line as they are. */
  lemma {:induction false} SameBytes(cuts: seq<seq<seq<Byte>>>, frames: seq<seq<Byte>>)
    requires |cuts| == |frames| && forall k :: 0 <= k < |cuts| ==> Flatten(cuts[k]) == frames[k]
    ensures Flatten(Flatten(cuts)) == Flatten(frames)
  {
    if cuts != [] {
      var n := |cuts| - 1;
      SameBytes(cuts[..n], frames[..n]);
      FlattenAppend(Flatten(cuts[..n]), cuts[n]);
    }
  }

  /** The forwarder turns a received send into a relay message that carries the original record and padding. */
  lemma {:induction false} SendForwarded(listen: AddrCache.Peer, size: nat, k: nat, ts: Timespec)
    requires SizeOk(size) && TimeOk(ts) && Receivable(SimPacket(listen, SeqOf(k), ts, size))
    ensures var p := SimPacket(listen, SeqOf(k), ts, size);
            Forwarder.FromReceiver(p) && Forwarder.Repackage(p) == Forwarder.Datagram(Forwarded(listen, size, k, ts))
    ensures Size(Forwarded(listen, size, k, ts)) < UART_MAX_LEN
  {
    var p := SimPacket(listen, SeqOf(k), ts, size);
    SimAcceptable(listen, SeqOf(k), ts, size);
    Framing.EncodeTail(p);
    hide Framing.Encode, Framing.Checksum, Framing.StuffAll, SeqOf, ToLE;
    assert p[12..16] == MAGIC && Forwarder.Data(p)[..4] == MAGIC;
    assert Forwarder.Data(p)[4..RELAY_DATA] == RelayBytes(Record(listen, k, ts));
    assert Forwarder.Data(p)[RELAY_DATA..] == Padding(size);
    assert p[1..9] == SIM_SRC;
  }

  lemma {:induction false} Window(buf: seq<Byte>, d: seq<Byte>, lo: nat, hi: nat)
    requires d <= buf && lo <= hi <= |d|
    ensures buf[lo..hi] == d[lo..hi]
  {
    assert buf[..|d|][lo..hi] == buf[lo..hi];
  }

  /**
   * End to end: after encoding, any reassembly and repackaging, a send yields a datagram whose header
   * states its size; the relay takes it under the sender's source and the send's sequence number; the
   * address it names is the sender's, and deliverable exactly when the sender has a port and an address;
   * and should it reach the sender, it is accepted, with the address, port, sequence number and time of
   * the send.
   */
  lemma {:induction false} EndToEnd(
      listen: AddrCache.Peer, size: nat, k: nat, ts: Timespec, atRelay: seq<Byte>, atSender: seq<Byte>)
    requires SizeOk(size) && TimeOk(ts) && Receivable(SimPacket(listen, SeqOf(k), ts, size))
    requires var d := Packed(Forwarded(listen, size, k, ts)); Holding(atRelay, d) && Holding(atSender, d)
    ensures var m := Forwarded(listen, size, k, ts);
            && HeaderLen(Packed(m)) == |Packed(m)| == Size(m) <= UART_MAX_LEN
            && Packed(m)[RELAY_MSG..] == Padding(size)
            && Destination.KeyOf(atRelay, Size(m)) == Destination.Keyed(SIM_SRC, SeqOf(k))
            && Destination.Target(m.relay) == listen
            && (Destination.Deliverable(m.relay) <==> listen.port != 0 && listen.addr != 0)
            && AnswerOf(atSender, Size(m), listen) == Answered(Record(listen, k, ts))
  {
    var m := Forwarded(listen, size, k, ts);
    SendForwarded(listen, size, k, ts);
    PackedHeader(m);
    Destination.MessagesTaken(atRelay, m);
    RelayRoundTrip(Record(listen, k, ts));
    var d := Packed(m);
    assert atSender[..2] == d[..2] && atSender[2] == d[2];
    Window(atSender, d, PKT_MSG, RELAY_MSG);
  }

  /**
   * The relay's lookup for such a datagram, as handle_relay makes it after the peers seen: it finds a slot
   * exactly when the sender is among the first sixteen peers, and that slot holds the sender's address.
   */
  lemma {:induction false} AnswerAddressed(
      listen: AddrCache.Peer, size: nat, k: nat, ts: Timespec,
      seen: seq<AddrCache.Peer>, slots: seq<AddrCache.Peer>, slot: AddrCache.Slot)
    requires SizeOk(size) && TimeOk(ts) && Destination.Deliverable(Forwarded(listen, size, k, ts).relay)
    requires var to := Destination.Target(Forwarded(listen, size, k, ts).relay);
             && AddrCache.Listed(AddrCache.Note(seen, to)) && AddrCache.Holds(slots, AddrCache.Note(seen, to))
             && AddrCache.Answers(slot, AddrCache.Note(seen, to), to)
    ensures slot.At? <==> AddrCache.InFirst16(AddrCache.Note(seen, listen), listen)
    ensures slot.At? ==> slot.index < |slots| && slots[slot.index] == listen
  {
    RelayRoundTrip(Record(listen, k, ts));
    AddrCache.AnsweredBySlot(slot, slots, AddrCache.Note(seen, listen), listen);
  }

  /** At the relay such a datagram is a copy of its send, in the sense of the exactly-once theorem. */
  lemma {:induction false} ArrivesAsCopy(
      listen: AddrCache.Peer, size: nat, k: nat, ts: Timespec, atRelay: seq<Byte>, now: Timespec)
    requires SizeOk(size) && TimeOk(ts) && Receivable(SimPacket(listen, SeqOf(k), ts, size))
    requires Holding(atRelay, Packed(Forwarded(listen, size, k, ts)))
    ensures var key := Destination.KeyOf(atRelay, Size(Forwarded(listen, size, k, ts)));
            key.Keyed? && Dedup.Arrival(key.src, key.seqno, now)
                          == ExactlyOnce.AsArrival(ExactlyOnce.Copy(SIM_SRC, k, now))
  {
    EndToEnd(listen, size, k, ts, atRelay, atRelay);
  }

  // ---- Sensor packets

  /**
   * A packet that is no relay packet: it becomes a packet message of 11 + |data| bytes with its source and
   * exactly its data, which the relay files under that source and the third data byte.
   */
  lemma {:induction false} SensorPacket(
      src: Address, rsv0: Byte, rsv1: Byte, options: Byte, data: seq<Byte>, atRelay: seq<Byte>)
    requires 14 + |data| <= 2048 && !Forwarder.LooksRelayed(data)
    requires var n := 11 + |data|; Holding(atRelay, [n % 256, n / 256, 0] + src + data)
    ensures Packet.Acceptable(Packet.RxLayout(src, rsv0, rsv1, options, data))
    ensures Proper(Message.Packet(src, data)) && Received(atRelay, 11 + |data|)
    ensures var d, n := [(11 + |data|) % 256, (11 + |data|) / 256, 0] + src + data, 11 + |data|;
            && Forwarder.Repackage(Packet.RxLayout(src, rsv0, rsv1, options, data))
               == Forwarder.Datagram(Message.Packet(src, data))
            && Packed(Message.Packet(src, data)) == d
            && Destination.KeyOf(atRelay, n).Keyed? && Destination.KeyOf(atRelay, n).src == src
            && (|data| > 2 ==> Destination.KeyOf(atRelay, n).seqno == data[2])
            && |d| == HeaderLen(d) == n && HeaderType(d) == 0 && d[3..11] == src && d[11..] == data
  {
    var m := Message.Packet(src, data);
    Forwarder.IndicationRepackaged(src, rsv0, rsv1, options, data);
    PackedHeader(m);
    Destination.MessagesTaken(atRelay, m);
    hide Destination.KeyOf, Packed, Forwarder.Repackage;
  }

  /** The OSC message the bridge makes of that datagram d spells out the packet's source and its data. */
  lemma {:induction false} SensorAsOsc(src: Address, data: seq<Byte>, d: seq<Byte>, buf: seq<Byte>)
    requires 14 + |data| <= 2048 && d == [(11 + |data|) % 256, (11 + |data|) / 256, 0] + src + data
    requires OscBridge.Emitted(d[3..11], d[11..]) <= buf
    ensures d[3..11] == src && d[11..] == data
    ensures var len := |OscBridge.Emitted(src, data)|; var p := Osc.ParseOf(buf, len);
            && p.Parsed? && Osc.ReadArgs(buf, len, p.marker, ['s' as int])
                            == Osc.AllGot([Osc.Str(OscBridge.HexBytes(data))], len)
            && OscBridge.Unhex(OscBridge.HexBytes(data)) == data
            && 14 <= Osc.Seek(buf, 0, 0, len)
            && OscBridge.Unhex(buf[14..Osc.Seek(buf, 0, 0, len)]) == src
  {
    assert d[3..11] == src && d[11..] == data;
    OscBridge.EmittedDecodes(buf, src, data);
    var z := Osc.Seek(buf, 0, 0, |OscBridge.Emitted(src, data)|);
    assert |OscBridge.AddressText(src)| == 30;
    hide Osc.Wire, Osc.ReadArgs, Osc.ParseOf, Osc.Seek, OscBridge.Emitted, OscBridge.Unhex, OscBridge.AddressText;
    assert buf[14..z] == buf[..z][14..];
  }

  /**
   * A relay packet from any source with any record and trailing bytes: the relay files it under its source
   * and the record's number, and any sender takes it as an answer exactly when it names that sender.
   */
  lemma {:induction false} RelayPacket(
      src: Address, rsv0: Byte, rsv1: Byte, options: Byte, data: seq<Byte>, at: seq<Byte>, listen: AddrCache.Peer)
    requires 14 + |data| <= 2048 && Forwarder.LooksRelayed(data)
    requires var n := 7 + |data|; Holding(at, [n % 256, n / 256, 1] + src + data[4..27] + data[27..])
    ensures Forwarder.Repackage(Packet.RxLayout(src, rsv0, rsv1, options, data))
            == Forwarder.Datagram(Relayed(src, data[4..27], data[27..]))
    ensures Destination.KeyOf(at, 7 + |data|) == Destination.Keyed(src, data[10])
    ensures AnswerOf(at, 7 + |data|, listen)
            == if Destination.Target(data[4..27]) == listen then Answered(ReadRelay(data[4..27])) else Ignored
  {
    var m := Relayed(src, data[4..27], data[27..]);
    Forwarder.IndicationRepackaged(src, rsv0, rsv1, options, data);
    PackedHeader(m);
    Destination.MessagesTaken(at, m);
    Window(at, Packed(m), PKT_MSG, RELAY_MSG);
    assert at[..2] == Packed(m)[..2] && at[2] == Packed(m)[2];
  }

  // ---- A whole run at the relay

  /** One datagram as the relay receives it, with the send it stems from. */
  datatype Receipt = Receipt(send: nat, ts: Timespec, buf: seq<Byte>, len: nat, now: Timespec)

  /** The datagram is what the forwarder makes of that send. */
  predicate Genuine(listen: AddrCache.Peer, size: nat, r: Receipt) {
    && SizeOk(size) && TimeOk(r.ts) && Receivable(SimPacket(listen, SeqOf(r.send), r.ts, size))
    && var m := Forwarded(listen, size, r.send, r.ts);
       Holding(r.buf, Packed(m)) && r.len == Size(m)
  }

  function Copies(rs: seq<Receipt>): (cs: seq<ExactlyOnce.Copy>)
    ensures |cs| == |rs|
    ensures forall i :: 0 <= i < |rs| ==> cs[i] == ExactlyOnce.Copy(SIM_SRC, rs[i].send, rs[i].now)
  {
    seq(|rs|, i requires 0 <= i < |rs| => ExactlyOnce.Copy(SIM_SRC, rs[i].send, rs[i].now))
  }

  /** What the relay's filter is offered: the key it reads out of each datagram, and its clock. */
  function Offered(rs: seq<Receipt>): (h: seq<Dedup.Arrival>)
    requires forall i :: 0 <= i < |rs| ==> Received(rs[i].buf, rs[i].len)
    ensures |h| <= |rs|
    ensures (forall i :: 0 <= i < |rs| ==> Destination.KeyOf(rs[i].buf, rs[i].len).Keyed?) ==> |h| == |rs|
  {
    if rs == [] then []
    else
      var h, r := Offered(rs[..|rs| - 1]), rs[|rs| - 1];
      match Destination.KeyOf(r.buf, r.len)
      case Discarded => h
      case Keyed(src, seqno) => h + [Dedup.Arrival(src, seqno, r.now)]
  }

  lemma {:induction false} GenuineArrival(listen: AddrCache.Peer, size: nat, r: Receipt)
    requires Genuine(listen, size, r)
    ensures Received(r.buf, r.len)
    ensures var key := Destination.KeyOf(r.buf, r.len);
            key.Keyed? && Dedup.Arrival(key.src, key.seqno, r.now)
                          == ExactlyOnce.AsArrival(ExactlyOnce.Copy(SIM_SRC, r.send, r.now))
    ensures AnswerOf(r.buf, r.len, listen) == Answered(Record(listen, r.send, r.ts))
    ensures var relay := r.buf[PKT_MSG..RELAY_MSG];
            && Destination.Target(relay) == listen
            && (Destination.Deliverable(relay) <==> listen.port != 0 && listen.addr != 0)
  {
    var m := Forwarded(listen, size, r.send, r.ts);
    PackedHeader(m);
    Window(r.buf, Packed(m), PKT_MSG, RELAY_MSG);
    EndToEnd(listen, size, r.send, r.ts, r.buf, r.buf);
    ArrivesAsCopy(listen, size, r.send, r.ts, r.buf, r.now);
  }

  /** The filter sees every genuine datagram as a copy of its send, and nothing else. */
  lemma {:induction false} OfferedAreCopies(listen: AddrCache.Peer, size: nat, rs: seq<Receipt>)
    requires forall i :: 0 <= i < |rs| ==> Genuine(listen, size, rs[i])
    ensures forall i :: 0 <= i < |rs| ==> Received(rs[i].buf, rs[i].len)
    ensures Offered(rs) == ExactlyOnce.Arrivals(Copies(rs))
  {
    hide Genuine, Destination.KeyOf, SeqOf, Received;
    forall i | 0 <= i < |rs| ensures Received(rs[i].buf, rs[i].len) {
      GenuineArrival(listen, size, rs[i]);
    }
    if rs != [] {
      var n := |rs| - 1;
      OfferedAreCopies(listen, size, rs[..n]);
      GenuineArrival(listen, size, rs[n]);
      assert Copies(rs)[..n] == Copies(rs[..n]);
      assert ExactlyOnce.Arrivals(Copies(rs))[..n] == ExactlyOnce.Arrivals(Copies(rs[..n]));
    }
  }

  /**
   * A whole run of a relay that several forwarders feed: the simulated sender's sends at least 1 ms apart,
   * every datagram within 80 ms of its send, a sane clock. Then the filter lets through exactly the first
   * datagram of every send. Each datagram names the sender's address, which the relay sends to exactly when
   * it has a port and an address, and is an answer the sender takes, with that send's own record.
   */
  lemma {:induction false} FilterAdmitsFirstCopies(
      listen: AddrCache.Peer, size: nat, sent: ExactlyOnce.Schedule, rs: seq<Receipt>, i: nat)
    requires forall j :: 0 <= j < |rs| ==> Genuine(listen, size, rs[j])
    requires ExactlyOnce.Paced(sent) && ExactlyOnce.Timely(sent, Copies(rs))
    requires Dedup.Monotone(ExactlyOnce.Arrivals(Copies(rs))) && Dedup.Started(ExactlyOnce.Arrivals(Copies(rs)))
    requires i < |rs|
    ensures forall j :: 0 <= j < |rs| ==> Received(rs[j].buf, rs[j].len)
    ensures |Offered(rs)| == |rs|
    ensures Dedup.Run(Offered(rs)).accepted[i] <==> forall j :: 0 <= j < i ==> rs[j].send != rs[i].send
    ensures var relay := rs[i].buf[PKT_MSG..RELAY_MSG];
            && Destination.Target(relay) == listen
            && (Destination.Deliverable(relay) <==> listen.port != 0 && listen.addr != 0)
    ensures AnswerOf(rs[i].buf, rs[i].len, listen) == Answered(Record(listen, rs[i].send, rs[i].ts))
  {
    hide *;
    OfferedAreCopies(listen, size, rs);
    GenuineArrival(listen, size, rs[i]);
    CopiesDecided(sent, rs, i);
  }

  lemma {:induction false} CopiesDecided(sent: ExactlyOnce.Schedule, rs: seq<Receipt>, i: nat)
    requires ExactlyOnce.Paced(sent) && ExactlyOnce.Timely(sent, Copies(rs))
    requires Dedup.Monotone(ExactlyOnce.Arrivals(Copies(rs))) && Dedup.Started(ExactlyOnce.Arrivals(Copies(rs)))
    requires i < |rs|
    ensures Dedup.Run(ExactlyOnce.Arrivals(Copies(rs))).accepted[i]
            <==> forall j :: 0 <= j < i ==> rs[j].send != rs[i].send
  {
    hide *;
    OneSourceAssumed(sent, Copies(rs));
    ExactlyOnce.ExactlyFirstCopies(sent, Copies(rs), i);
    FirstBySend(rs, i);
  }

  lemma {:induction false} FirstBySend(rs: seq<Receipt>, i: nat)
    requires i < |rs|
    ensures ExactlyOnce.First(Copies(rs), i) <==> forall j :: 0 <= j < i ==> rs[j].send != rs[i].send
  {
    var cs := Copies(rs);
    assert forall j :: 0 <= j < i ==> (ExactlyOnce.SameSend(cs[j], cs[i]) <==> rs[j].send == rs[i].send);
  }

  lemma {:induction false} OneSourceAssumed(sent: ExactlyOnce.Schedule, cs: seq<ExactlyOnce.Copy>)
    requires forall i :: 0 <= i < |cs| ==> cs[i].src == SIM_SRC
    requires ExactlyOnce.Paced(sent) && ExactlyOnce.Timely(sent, cs)
    requires Dedup.Monotone(ExactlyOnce.Arrivals(cs)) && Dedup.Started(ExactlyOnce.Arrivals(cs))
    ensures ExactlyOnce.Assumed(sent, cs)
  {
    OneSource(cs);
  }

  lemma {:induction false} OneSource(cs: seq<ExactlyOnce.Copy>)
    requires forall i :: 0 <= i < |cs| ==> cs[i].src == SIM_SRC
    ensures |Dedup.Sources(ExactlyOnce.Arrivals(cs))| <= 1
  {
    Dedup.SubsetSize(Dedup.Sources(ExactlyOnce.Arrivals(cs)), {SIM_SRC});
  }
}
