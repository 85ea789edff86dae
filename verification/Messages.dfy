/** The datagrams between forwarder, relay and sender: packed little-endian layouts and their readers. */
module Messages {
  import opened Bytes
  import opened Clock

  // Packed sizes
  const MSG_HDR := 3
  const PKT_MSG := 11
  const RELAY := 23
  const RELAY_MSG := 34
  const RELAY_DATA := 27

  const MSG_TYPE_PKT: Byte := 0
  const MSG_TYPE_RELAY: Byte := 1

  const MAGIC: seq<Byte> := [0xEF, 0xBE, 0xAD, 0xDE]

  /** MAGIC is 0xdeadbeef as a little-endian word. */
  lemma {:induction false} MagicValue()
    ensures FromLE(MAGIC) == 0xdeadbeef
  {
    assert FromLE(MAGIC[3..]) == 0xDE && MAGIC[1..][1..][1..] == MAGIC[3..];
    assert FromLE(MAGIC[2..]) == 0xDEAD && MAGIC[1..][1..] == MAGIC[2..];
  }

  /** relay_t: where to answer, the sequence number and the sender's clock. */
  datatype Relay = Relay(addr: U32, port: U16, seqno: Byte, ts: Timespec)

  predicate Storable(r: Relay) {
    Fits64(r.ts.sec) && Fits64(r.ts.nsec)
  }

  function RelayBytes(r: Relay): (s: seq<Byte>)
    requires Storable(r)
    ensures |s| == RELAY
  {
    ToLE(r.addr, 4) + ToLE(r.port, 2) + [r.seqno] + ToLE(Pattern64(r.ts.sec), 8) + ToLE(Pattern64(r.ts.nsec), 8)
  }

  function Word16(s: seq<Byte>): U16
    requires |s| == 2
  {
    LEBytes(s);
    Pow256Values();
    FromLE(s)
  }

  function Word32(s: seq<Byte>): U32
    requires |s| == 4
  {
    LEBytes(s);
    Pow256Values();
    FromLE(s)
  }

  function Word64(s: seq<Byte>): int
    requires |s| == 8
  {
    LEBytes(s);
    Pow256Values();
    Signed64(FromLE(s))
  }

  function ReadRelay(s: seq<Byte>): Relay
    requires |s| == RELAY
  {
    Relay(Word32(s[..4]), Word16(s[4..6]), s[6], Timespec(Word64(s[7..15]), Word64(s[15..])))
  }

  /** A relay record survives its byte layout. */
  lemma {:induction false} RelayRoundTrip(r: Relay)
    requires Storable(r)
    ensures ReadRelay(RelayBytes(r)) == r
    ensures RelayBytes(r)[6] == r.seqno
  {
    var s := RelayBytes(r);
    Pow256Values();
    LERoundTrip(r.addr, 4);
    LERoundTrip(r.port, 2);
    LERoundTrip(Pattern64(r.ts.sec), 8);
    LERoundTrip(Pattern64(r.ts.nsec), 8);
    assert s[..4] == ToLE(r.addr, 4) && s[4..6] == ToLE(r.port, 2);
    assert s[7..15] == ToLE(Pattern64(r.ts.sec), 8) && s[15..] == ToLE(Pattern64(r.ts.nsec), 8);
  }

  /** What a datagram carries. */
  datatype Message =
    | Packet(src: Address, data: seq<Byte>)
    | Relayed(src: Address, relay: seq<Byte>, data: seq<Byte>)

  predicate Proper(m: Message) {
    (m.Relayed? ==> |m.relay| == RELAY) && Size(m) < 0x1_0000
  }

  function Size(m: Message): nat {
    match m
    case Packet(_, data) => PKT_MSG + |data|
    case Relayed(_, _, data) => RELAY_MSG + |data|
  }

  /** msg_hdr_t: the length, then the type in the low two bits of a byte whose flag bits are zero. */
  function Header(n: nat, kind: Byte): (s: seq<Byte>)
    ensures |s| == MSG_HDR
  {
    ToLE(n, 2) + [kind]
  }

  function Packed(m: Message): (d: seq<Byte>)
    requires Proper(m)
    ensures |d| == Size(m)
  {
    match m
    case Packet(src, data) => Header(Size(m), MSG_TYPE_PKT) + src + data
    case Relayed(src, relay, data) => Header(Size(m), MSG_TYPE_RELAY) + src + relay + data
  }

  function HeaderLen(d: seq<Byte>): U16
    requires |d| >= MSG_HDR
  {
    Word16(d[..2])
  }

  function HeaderType(d: seq<Byte>): Byte
    requires |d| >= MSG_HDR
  {
    d[2] % 4
  }

  /** A datagram starts with its own size and its type, and its source follows. */
  lemma {:induction false} PackedHeader(m: Message)
    requires Proper(m)
    ensures HeaderLen(Packed(m)) == |Packed(m)|
    ensures HeaderType(Packed(m)) == if m.Packet? then MSG_TYPE_PKT else MSG_TYPE_RELAY
    ensures Packed(m)[3..11] == m.src
    ensures m.Packet? ==> Packed(m)[PKT_MSG..] == m.data
    ensures m.Relayed? ==> Packed(m)[PKT_MSG..RELAY_MSG] == m.relay && Packed(m)[RELAY_MSG..] == m.data
  {
    Pow256Values();
    LERoundTrip(Size(m), 2);
    assert Packed(m)[..2] == ToLE(Size(m), 2);
  }

  /** Different messages make different datagrams. */
  lemma {:induction false} PackedInjective(m: Message, n: Message)
    requires Proper(m) && Proper(n) && Packed(m) == Packed(n)
    ensures m == n
  {
    PackedHeader(m);
    PackedHeader(n);
  }

  /** The bytes of a datagram: its own size, low byte first, its type, the source, and what it carries. */
  lemma {:induction false} PackedBytes(m: Message)
    requires Proper(m)
    ensures var n := Size(m);
            Packed(m) == match m
                         case Packet(src, data) => [n % 256, n / 256, 0] + src + data
                         case Relayed(src, relay, data) => [n % 256, n / 256, 1] + src + relay + data
    ensures Size(m) == match m case Packet(_, data) => 11 + |data| case Relayed(_, _, data) => 34 + |data|
  {
    TwoBytes(Size(m));
    hide ToLE;
  }

  lemma {:induction false} TwoBytes(n: nat)
    requires n < 0x1_0000
    ensures ToLE(n, 2) == [n % 256, n / 256]
  {
    assert ToLE(n / 256, 1) == [n / 256] + ToLE(n / 256 / 256, 0);
  }

  /** The value of a field of n bytes, low byte first: n is 2, 4 or 8. */
  lemma {:induction false} LittleValue(s: seq<Byte>)
    ensures |s| == 2 ==> FromLE(s) == s[0] + Weighed(s[1], 0x100)
    ensures |s| == 4 ==>
              FromLE(s) == s[0] + Weighed(s[1], 0x100) + Weighed(s[2], 0x1_0000) + Weighed(s[3], 0x100_0000)
  {
    if |s| == 2 {
      LittleStep(s);
      LittleStep(s[1..]);
    } else if |s| == 4 {
      LittleStep(s);
      LittleStep(s[1..]);
      LittleStep(s[1..][1..]);
      LittleStep(s[1..][1..][1..]);
    }
  }

  function Weighed(b: int, weight: int): int {
    b * weight
  }

  lemma {:induction false} LittleStep(s: seq<Byte>)
    requires s != []
    ensures FromLE(s) == s[0] + 256 * FromLE(s[1..])
  {
  }

  /** Where a relay record keeps its address, port, number and the two halves of its time. */
  lemma {:induction false} RelayFields(s: seq<Byte>)
    requires |s| == 23
    ensures var r := ReadRelay(s);
            && r.addr == s[0] + Weighed(s[1], 0x100) + Weighed(s[2], 0x1_0000) + Weighed(s[3], 0x100_0000)
            && r.port == s[4] + Weighed(s[5], 0x100)
            && r.seqno == s[6]
            && ToLE(Pattern64(r.ts.sec), 8) == s[7..15] && ToLE(Pattern64(r.ts.nsec), 8) == s[15..23]
  {
    LittleValue(s[..4]);
    LittleValue(s[4..6]);
    LEBytes(s[7..15]);
    LEBytes(s[15..]);
    hide ToLE, FromLE;
    assert s[15..] == s[15..23];
  }

  // ---- Receiving

  /** A received length as an unsigned size: a failed receive, -1, is huge. */
  function AsSize(len: int): int {
    if len < 0 then len + 0x1_0000_0000_0000_0000 else len
  }

  /** The receive buffer and the length of what was just received into it. */
  predicate Received(buf: seq<Byte>, len: int) {
    |buf| == UART_MAX_LEN && -1 <= len <= UART_MAX_LEN
  }

  /** A whole datagram d, over whatever the buffer held before. */
  predicate Holding(buf: seq<Byte>, d: seq<Byte>) {
    |buf| == UART_MAX_LEN && |d| <= UART_MAX_LEN && buf[..|d|] == d
  }
}
