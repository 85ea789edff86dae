/** The relay: which datagrams it takes, under what key it deduplicates them, and where it sends them. */
module Destination {
  import opened Bytes
  import opened Messages
  import AddrCache

  /** The position of a packet message's sequence number, counted from the start of the datagram. */
  const PKT_SEQ_AT := PKT_MSG + 2

  datatype Key = Discarded | Keyed(src: Address, seqno: Byte)

  /**
   * The relay's checks, in the order it makes them; the result is the deduplication key of a datagram it
   * takes. A packet message's sequence number is read at a fixed place, even past a short message's end.
   */
  method Classify(msg: array<Byte>, len: int) returns (key: Key)
    requires Received(msg[..], len)
    ensures key == KeyOf(msg[..], len)
  {
    if AsSize(len) < MSG_HDR || len != HeaderLen(msg[..]) {
      return Discarded;
    }
    var kind := HeaderType(msg[..]);
    if kind == MSG_TYPE_PKT {
      if HeaderLen(msg[..]) < PKT_MSG {
        return Discarded;
      }
      return Keyed(msg[3..11], msg[PKT_SEQ_AT]);
    } else if kind == MSG_TYPE_RELAY {
      if HeaderLen(msg[..]) < RELAY_MSG {
        return Discarded;
      }
      return Keyed(msg[3..11], msg[PKT_MSG + 6]);
    } else {
      return Discarded;
    }
  }

  /** Some prefix of the buffer, as long as its own header says, is a datagram of a known type. */
  function KeyOf(buf: seq<Byte>, len: int): Key
    requires Received(buf, len)
  {
    if len != HeaderLen(buf) || len < PKT_MSG then Discarded
    else if HeaderType(buf) == MSG_TYPE_PKT then Keyed(buf[3..11], buf[PKT_SEQ_AT])
    else if HeaderType(buf) == MSG_TYPE_RELAY && len >= RELAY_MSG then Keyed(buf[3..11], buf[PKT_MSG + 6])
    else Discarded
  }

  /**
   * Every proper message that fits is taken, under its own source; a relay message under the sequence
   * number in its relay record, a packet message under its third data byte if it has one.
   */
  lemma {:induction false} MessagesTaken(buf: seq<Byte>, m: Message)
    requires Proper(m) && Size(m) <= UART_MAX_LEN && Holding(buf, Packed(m))
    ensures KeyOf(buf, Size(m)).Keyed? && KeyOf(buf, Size(m)).src == m.src
    ensures m.Relayed? ==> KeyOf(buf, Size(m)).seqno == m.relay[6]
    ensures m.Packet? && |m.data| > 2 ==> KeyOf(buf, Size(m)).seqno == m.data[2]
  {
    PackedHeader(m);
    var d := Packed(m);
    assert buf[..2] == d[..2] && buf[3..11] == d[3..11] && buf[2] == d[2];
    if m.Relayed? {
      assert buf[PKT_MSG + 6] == d[PKT_MSG..RELAY_MSG][6];
    } else if |m.data| > 2 {
      assert buf[PKT_SEQ_AT] == d[PKT_MSG..][2];
    }
  }

  /** Conversely, whatever is taken is a whole datagram whose header states its length and a known type. */
  lemma {:induction false} TakenIsMessage(buf: seq<Byte>, len: int)
    requires Received(buf, len) && KeyOf(buf, len).Keyed?
    ensures exists m: Message :: Proper(m) && Size(m) == len && m.src == KeyOf(buf, len).src
                                 && Packed(m)[..2] == buf[..2] && Packed(m)[2] == HeaderType(buf)
                                 && Packed(m)[3..] == buf[3..len]
  {
    var n := HeaderLen(buf);
    LEBytes(buf[..2]);
    var m := if HeaderType(buf) == MSG_TYPE_PKT then Message.Packet(buf[3..11], buf[PKT_MSG..len])
             else Relayed(buf[3..11], buf[PKT_MSG..RELAY_MSG], buf[RELAY_MSG..len]);
    assert Packed(m)[..2] == ToLE(len, 2) == buf[..2];
    assert Size(m) == len;
    if m.Packet? {
      Joined(buf, 3, PKT_MSG, len);
      assert Packed(m)[3..] == buf[3..11] + buf[PKT_MSG..len];
    } else {
      Joined(buf, 3, PKT_MSG, RELAY_MSG);
      Joined(buf, 3, RELAY_MSG, len);
      assert Packed(m)[3..] == buf[3..11] + buf[PKT_MSG..RELAY_MSG] + buf[RELAY_MSG..len];
    }
  }

  lemma {:induction false} Joined(buf: seq<Byte>, a: nat, b: nat, c: nat)
    requires a <= b <= c <= |buf|
    ensures buf[a..b] + buf[b..c] == buf[a..c]
  {
  }

  /** Where handle_relay sends a relay message: nowhere without a port and an address. */
  function Target(relay: seq<Byte>): (t: AddrCache.Peer)
    requires |relay| == RELAY
  {
    AddrCache.Peer(ReadRelay(relay).addr, ReadRelay(relay).port)
  }

  predicate Deliverable(relay: seq<Byte>)
    requires |relay| == RELAY
  {
    Target(relay).port != 0 && Target(relay).addr != 0
  }

  /** handle_relay: the cached address a relay message is sent to, if it names one and the cache has room. */
  method HandleRelay(cache: AddrCache.Cache, relay: seq<Byte>, ghost seen: seq<AddrCache.Peer>)
    returns (slot: AddrCache.Slot)
    requires |relay| == RELAY && AddrCache.Listed(seen) && AddrCache.Holds(cache.slots[..], seen)
    modifies cache.slots
    ensures !Deliverable(relay) ==> slot == AddrCache.Missing && cache.slots[..] == old(cache.slots[..])
    ensures Deliverable(relay) ==>
              AddrCache.Answers(slot, AddrCache.Note(seen, Target(relay)), Target(relay))
              && (slot.At? ==> slot.index < AddrCache.MAX_ADDR_CACHE && cache.slots[slot.index] == Target(relay))
  {
    var r := ReadRelay(relay);
    if r.port == 0 || r.addr == 0 {
      return AddrCache.Missing;
    }
    slot := cache.GetAddr(AddrCache.Peer(r.addr, r.port), seen);
  }
}
