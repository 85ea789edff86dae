/** The forwarder's sending thread: a received XBee packet becomes a relay or packet datagram. */
module Forwarder {
  import opened Bytes
  import opened Messages
  import Packet

  // Offsets in a packet's contents: type, source address, two reserved bytes, options, data.
  const SRC_AT := 1
  const DATA_AT := 12

  /** A packet as the receive loop queues it: acceptable, and from a buffer of UART_MAX_LEN bytes. */
  predicate FromReceiver(p: seq<Byte>) {
    Packet.Acceptable(p) && Packet.LEN_FIELD + |p| <= UART_MAX_LEN
  }

  function Source(p: seq<Byte>): Address
    requires Packet.Acceptable(p)
  {
    p[SRC_AT..SRC_AT + 8]
  }

  function Data(p: seq<Byte>): seq<Byte>
    requires Packet.Acceptable(p)
  {
    p[DATA_AT..]
  }

  /** The data starts like something a relay source sent. */
  predicate IsRelay(data: seq<Byte>) {
    |data| >= RELAY_DATA && data[..4] == MAGIC
  }

  datatype Outgoing = Nothing | Datagram(m: Message)

  /** What a queued packet is turned into; transmit requests are skipped. */
  function Repackage(p: seq<Byte>): Outgoing
    requires Packet.Acceptable(p)
  {
    if p[0] != Packet.TYPE_RX_IND then Nothing
    else
      var data := Data(p);
      if IsRelay(data) then Datagram(Relayed(Source(p), data[4..RELAY_DATA], data[RELAY_DATA..]))
      else Datagram(Message.Packet(Source(p), data))
  }

  /** 16-bit subtraction as pkt_len_t performs it. */
  function Sub16(a: U16, b: U16): U16 {
    (a - b) % 0x1_0000
  }

  /** Data that the forwarder takes for a relay source's, in bytes. */
  predicate LooksRelayed(data: seq<Byte>) {
    |data| >= 27 && data[..4] == [0xEF, 0xBE, 0xAD, 0xDE]
  }

  /**
   * Receive indications byte by byte. Data that does not look relayed travels whole, behind its source;
   * otherwise the 23 bytes behind the magic and all that follows them do.
   */
  lemma {:induction false} IndicationRepackaged(src: Address, rsv0: Byte, rsv1: Byte, options: Byte, data: seq<Byte>)
    requires 14 + |data| <= 2048
    ensures var p := Packet.RxLayout(src, rsv0, rsv1, options, data);
            && FromReceiver(p)
            && (!LooksRelayed(data) ==>
                  var n := 11 + |data|;
                  && Repackage(p) == Datagram(Message.Packet(src, data))
                  && Packed(Repackage(p).m) == [n % 256, n / 256, 0] + src + data)
            && (LooksRelayed(data) ==>
                  var n := 7 + |data|;
                  && Repackage(p) == Datagram(Relayed(src, data[4..27], data[27..]))
                  && Packed(Repackage(p).m) == [n % 256, n / 256, 1] + src + data[4..27] + data[27..])
  {
    var p := Packet.RxLayout(src, rsv0, rsv1, options, data);
    assert p[1..9] == src && p[12..] == data;
    RepackageBounded(p);
    PackedBytes(Repackage(p).m);
  }

  /** Transmit requests are not sent on. */
  lemma {:induction false} RequestSkipped(
      id: Byte, to: Address, rsv0: Byte, rsv1: Byte, radius: Byte, options: Byte, data: seq<Byte>)
    ensures var p := Packet.TxLayout(id, to, rsv0, rsv1, radius, options, data);
            Packet.Acceptable(p) && Repackage(p) == Nothing
  {
  }

  /**
   * Repackaging is bounded: given the decoder's minimum-length check the 16-bit subtractions never wrap,
   * and the datagram is shorter than the packet it came from.
   */
  lemma {:induction false} RepackageBounded(p: seq<Byte>)
    requires FromReceiver(p)
    ensures Sub16(Packet.LEN_FIELD + |p|, Packet.RX_PKT_SIZE) == |Data(p)|
    ensures IsRelay(Data(p)) ==> Sub16(|Data(p)|, RELAY_DATA) == |Data(p)| - RELAY_DATA
    ensures Repackage(p).Datagram? ==>
              Proper(Repackage(p).m) && |Packed(Repackage(p).m)| < Packet.LEN_FIELD + |p|
  {
    var a, b := Packet.LEN_FIELD + |p|, Packet.RX_PKT_SIZE;
    assert 0 <= a - b < 0x1_0000;
  }

  /** Repackaging is lossless on source and data: the datagram determines both. */
  lemma {:induction false} RepackageInjective(p: seq<Byte>, q: seq<Byte>)
    requires FromReceiver(p) && FromReceiver(q)
    requires Repackage(p).Datagram? && Repackage(q).Datagram?
    requires Proper(Repackage(p).m) && Proper(Repackage(q).m)
    requires Packed(Repackage(p).m) == Packed(Repackage(q).m)
    ensures Source(p) == Source(q) && Data(p) == Data(q)
  {
    PackedInjective(Repackage(p).m, Repackage(q).m);
    if IsRelay(Data(p)) {
      RelayParts(Data(p));
      RelayParts(Data(q));
    }
  }

  lemma {:induction false} RelayParts(data: seq<Byte>)
    requires IsRelay(data)
    ensures data == MAGIC + data[4..RELAY_DATA] + data[RELAY_DATA..]
  {
    assert data == data[..4] + data[4..RELAY_DATA] + data[RELAY_DATA..];
  }

  /** Writes parts one after the other from the start of the message buffer. */
  lemma {:induction false} Assembled(before: seq<Byte>, head: seq<Byte>, part: seq<Byte>)
    requires |head| + |part| <= |before| && before[..|head|] == head
    ensures (before[..|head|] + part + before[|head| + |part|..])[..|head| + |part|] == head + part
  {
  }

  method Append(msg: array<Byte>, ghost head: seq<Byte>, at: nat, part: seq<Byte>) returns (next: nat)
    requires at == |head| && at + |part| <= msg.Length && msg[..at] == head
    modifies msg
    ensures next == at + |part| && msg[..next] == head + part
  {
    Assembled(msg[..], head, part);
    PutBytes(msg, at, part);
    next := at + |part|;
    assert msg[..next] == msg[..][..next];
  }

  /**
   * The thread's treatment of one packet: fills the message buffer field by field and says how many bytes
   * to send; they are exactly the repackaged datagram. len 0 means nothing is sent.
   */
  method Fill(msg: array<Byte>, p: seq<Byte>) returns (len: U16)
    requires msg.Length == UART_MAX_LEN && FromReceiver(p)
    modifies msg
    ensures Repackage(p).Nothing? ==> len == 0
    ensures Repackage(p).Datagram? ==>
              Proper(Repackage(p).m) && len <= msg.Length && msg[..len] == Packed(Repackage(p).m)
  {
    RepackageBounded(p);
    if p[0] != Packet.TYPE_RX_IND {
      return 0;
    }
    var plen: U16 := Sub16(Packet.LEN_FIELD + |p|, Packet.RX_PKT_SIZE);
    var data := p[DATA_AT..];
    if plen >= RELAY_DATA && data[..4] == MAGIC {
      var relay := data[4..RELAY_DATA];
      plen := Sub16(plen, RELAY_DATA);
      len := FillParts(msg, RELAY_MSG + plen, MSG_TYPE_RELAY, p[SRC_AT..SRC_AT + 8], relay, data[RELAY_DATA..]);
    } else {
      len := FillParts(msg, PKT_MSG + plen, MSG_TYPE_PKT, p[SRC_AT..SRC_AT + 8], [], data);
      assert Header(len, MSG_TYPE_PKT) + Source(p) + [] + data == Header(len, MSG_TYPE_PKT) + Source(p) + data;
    }
  }

  method FillParts(msg: array<Byte>, n: U16, kind: Byte, src: seq<Byte>, relay: seq<Byte>, data: seq<Byte>)
    returns (len: U16)
    requires n == MSG_HDR + |src| + |relay| + |data| && n <= msg.Length
    modifies msg
    ensures len == n && msg[..len] == Header(n, kind) + src + relay + data
  {
    hide Header;
    assert msg[..0] == [];
    var at := Append(msg, [], 0, Header(n, kind));
    assert [] + Header(n, kind) == Header(n, kind);
    at := Append(msg, Header(n, kind), at, src);
    at := Append(msg, Header(n, kind) + src, at, relay);
    at := Append(msg, Header(n, kind) + src + relay, at, data);
    len := n;
  }
}
