/** The OSC bridge: a packet message becomes an OSC message with its source and data in hexadecimal. */
module OscBridge {
  import opened Bytes
  import opened Osc
  import M = Messages
  import TinyOsc

  // ---- Hexadecimal text

  type Nibble = d: int | 0 <= d < 16

  function HexDigit(d: Nibble): (c: Byte)
    ensures c != 0 && c != COMMA
  {
    if d < 10 then '0' as int + d else 'A' as int + d - 10
  }

  function HexValue(c: Byte): Nibble {
    if '0' as int <= c <= '9' as int then c - '0' as int
    else if 'A' as int <= c <= 'F' as int then c - 'A' as int + 10
    else 0
  }

  /** The low n hexadecimal digits of v, as a zero-padded upper-case conversion of that width prints them. */
  function HexNumber(v: nat, n: nat): (s: seq<Byte>)
    ensures |s| == n
    ensures forall k :: 0 <= k < n ==> s[k] != 0 && s[k] != COMMA
  {
    if n == 0 then [] else HexNumber(v / 16, n - 1) + [HexDigit(v % 16)]
  }

  /** Two digits per byte. */
  function HexBytes(s: seq<Byte>): (h: seq<Byte>)
    ensures |h| == 2 * |s|
    ensures forall k :: 0 <= k < |h| ==> h[k] != 0 && h[k] != COMMA
  {
    if s == [] then [] else HexBytes(s[..|s| - 1]) + HexNumber(s[|s| - 1], 2)
  }

  function Unhex(h: seq<Byte>): (s: seq<Byte>)
    ensures |s| == |h| / 2
  {
    if |h| < 2 then []
    else Unhex(h[..|h| - 2]) + [16 * HexValue(h[|h| - 2]) + HexValue(h[|h| - 1])]
  }

  /** Hexadecimal text determines the bytes it was made from. */
  lemma {:induction false} UnhexUndoes(s: seq<Byte>)
    ensures Unhex(HexBytes(s)) == s
  {
    if s != [] {
      var n, b := |s| - 1, s[|s| - 1];
      UnhexUndoes(s[..n]);
      var h := HexBytes(s);
      TwoDigits(b);
      assert h[..2 * n] == HexBytes(s[..n]) && h[2 * n..] == HexNumber(b, 2);
      assert h[2 * n] == h[2 * n..][0] && h[2 * n + 1] == h[2 * n..][1];
    }
  }

  lemma {:induction false} TwoDigits(b: Byte)
    ensures HexNumber(b, 2) == [HexDigit(b / 16), HexDigit(b % 16)]
    ensures HexValue(HexDigit(b / 16)) == b / 16 && HexValue(HexDigit(b % 16)) == b % 16
  {
    assert HexNumber(b / 16, 1) == HexNumber(b / 16 / 16, 0) + [HexDigit(b / 16 % 16)];
  }

  /** A number assembled from bytes prints as those bytes, two digits each. */
  lemma {:induction false} NumberPrintsBytes(s: seq<Byte>)
    ensures HexNumber(FromBE(s), 2 * |s|) == HexBytes(s)
  {
    if s != [] {
      var v, b, n := FromBE(s[..|s| - 1]), s[|s| - 1], 2 * |s|;
      NumberPrintsBytes(s[..|s| - 1]);
      ShiftedByte(v, b);
      TwoDigits(b);
      assert HexNumber(FromBE(s), n) == HexNumber(FromBE(s) / 16 / 16, n - 2) + [HexDigit(b / 16)] + [HexDigit(b % 16)];
    }
  }

  lemma {:induction false} ShiftedByte(v: nat, b: Byte)
    ensures (256 * v + b) % 16 == b % 16 && (256 * v + b) / 16 % 16 == b / 16 && (256 * v + b) / 16 / 16 == v
  {
    assert (256 * v + b) / 16 == 16 * v + b / 16;
  }

  // ---- The message

  function Times(b: int, scale: int): int { b * scale }

  /** The source address as a number: byte 7 lowest, byte 0 highest. */
  function SourceNumber(a: Address): (v: int)
    ensures v == FromBE(a)
  {
    SourceNumberIsBE(a);
    Times(a[7], 1) + Times(a[6], 0x100) + Times(a[5], 0x1_0000) + Times(a[4], 0x100_0000) + Times(a[3], 0x1_0000_0000)
    + Times(a[2], 0x100_0000_0000) + Times(a[1], 0x1_0000_0000_0000) + Times(a[0], 0x100_0000_0000_0000)
  }

  lemma {:induction false} SourceNumberIsBE(a: Address)
    ensures FromBE(a) == Times(a[7], 1) + Times(a[6], 0x100) + Times(a[5], 0x1_0000) + Times(a[4], 0x100_0000)
                         + Times(a[3], 0x1_0000_0000) + Times(a[2], 0x100_0000_0000)
                         + Times(a[1], 0x1_0000_0000_0000) + Times(a[0], 0x100_0000_0000_0000)
  {
    assert a[..7][..6] == a[..6] && a[..6][..5] == a[..5] && a[..5][..4] == a[..4];
    assert a[..4][..3] == a[..3] && a[..3][..2] == a[..2] && a[..2][..1] == a[..1] && a[..1][..0] == [];
    assert FromBE(a[..1]) == a[0];
    assert FromBE(a[..2]) == 256 * FromBE(a[..1]) + a[1];
    assert FromBE(a[..3]) == 256 * FromBE(a[..2]) + a[2];
    assert FromBE(a[..4]) == 256 * FromBE(a[..3]) + a[3];
    assert FromBE(a[..5]) == 256 * FromBE(a[..4]) + a[4];
    assert FromBE(a[..6]) == 256 * FromBE(a[..5]) + a[5];
    assert FromBE(a[..7]) == 256 * FromBE(a[..6]) + a[6];
  }

  const PREFIX: seq<Byte> := Ascii("/gesture/xbee/")

  const TAGS: seq<Byte> := ['s' as int]

  function AddressText(src: Address): (t: seq<Byte>)
    ensures |t| == 30
  {
    PREFIX + HexNumber(SourceNumber(src), 16)
  }

  /** The address text and the data text of one message, literally. */
  lemma {:induction false} ExampleTexts()
    ensures AddressText([0x00, 0x13, 0xA2, 0x00, 0x40, 0x0A, 0xBC, 0xDF]) == Ascii("/gesture/xbee/0013A200400ABCDF")
    ensures HexBytes([0x09, 0xAF]) == Ascii("09AF")
  {
    var src: Address := [0x00, 0x13, 0xA2, 0x00, 0x40, 0x0A, 0xBC, 0xDF];
    AddressTextIsHex(src);
    EightBytes(src);
    PairTexts();
    hide HexBytes, AddressText, Ascii, HexDigit;
    TextsJoined();
  }

  lemma {:induction false} PairTexts()
    ensures HexBytes([0x00, 0x13]) == Ascii("0013") && HexBytes([0xA2, 0x00]) == Ascii("A200")
    ensures HexBytes([0x40, 0x0A]) == Ascii("400A") && HexBytes([0xBC, 0xDF]) == Ascii("BCDF")
    ensures HexBytes([0x09, 0xAF]) == Ascii("09AF")
  {
    hide HexBytes, HexDigit, Ascii;
    PairText(0x00, 0x13, "0013");
    PairText(0xA2, 0x00, "A200");
    PairText(0x40, 0x0A, "400A");
    PairText(0xBC, 0xDF, "BCDF");
    PairText(0x09, 0xAF, "09AF");
  }

  /** Digits are the characters 0 to 9 and A to F. */
  function Digit(n: int): char
    requires 0 <= n < 16
  {
    "0123456789ABCDEF"[n]
  }

  lemma {:induction false} DigitText(n: Nibble)
    ensures HexDigit(n) == Digit(n) as int < 256
  {
  }

  lemma {:induction false} PairText(a: Byte, b: Byte, t: string)
    requires |t| == 4
    ensures t == [Digit(a / 16), Digit(a % 16), Digit(b / 16), Digit(b % 16)] ==> HexBytes([a, b]) == Ascii(t)
  {
    TwoBytes(a, b);
    DigitText(a / 16);
    DigitText(a % 16);
    DigitText(b / 16);
    DigitText(b % 16);
    hide HexBytes, HexDigit;
  }

  lemma {:induction false} TextsJoined()
    ensures Ascii("/gesture/xbee/") + (Ascii("0013") + Ascii("A200") + Ascii("400A") + Ascii("BCDF"))
            == Ascii("/gesture/xbee/0013A200400ABCDF")
  {
  }

  lemma {:induction false} TwoBytes(a: Byte, b: Byte)
    ensures HexBytes([a, b]) == [HexDigit(a / 16), HexDigit(a % 16), HexDigit(b / 16), HexDigit(b % 16)]
  {
    TwoDigits(a);
    TwoDigits(b);
    assert [a, b][..1] == [a] && [a][..0] == [];
    hide HexNumber, HexDigit;
    assert HexBytes([a]) == HexBytes([]) + HexNumber(a, 2);
  }

  lemma {:induction false} HexConcat(a: seq<Byte>, b: seq<Byte>)
    ensures HexBytes(a + b) == HexBytes(a) + HexBytes(b)
  {
    hide HexNumber;
    if b == [] {
      assert a + b == a;
    } else {
      HexConcat(a, b[..|b| - 1]);
      assert (a + b)[..|a + b| - 1] == a + b[..|b| - 1];
    }
  }

  lemma {:induction false} EightBytes(s: seq<Byte>)
    requires |s| == 8
    ensures HexBytes(s) == HexBytes([s[0], s[1]]) + HexBytes([s[2], s[3]]) + HexBytes([s[4], s[5]]) + HexBytes([s[6], s[7]])
  {
    var a, b, c, d := [s[0], s[1]], [s[2], s[3]], [s[4], s[5]], [s[6], s[7]];
    assert s == a + b + c + d;
    HexConcat(a + b + c, d);
    HexConcat(a + b, c);
    HexConcat(a, b);
  }

  function Emitted(src: Address, data: seq<Byte>): seq<Byte> {
    Wire(AddressText(src), TAGS, [Str(HexBytes(data))])
  }

  lemma {:induction false} AddressTextIsHex(src: Address)
    ensures AddressText(src) == PREFIX + HexBytes(src)
    ensures Text(AddressText(src)) && COMMA !in AddressText(src)
  {
    NumberPrintsBytes(src);
    var h := HexBytes(src);
    assert forall c :: c in PREFIX + h ==> c in PREFIX || c in h;
  }

  /** The size of what is emitted, which always fits the bridge's buffer. */
  lemma {:induction false} EmittedSize(src: Address, data: seq<Byte>)
    ensures |Emitted(src, data)| == 36 + Mask4(2 * |data| + 4)
    ensures M.PKT_MSG + |data| <= UART_MAX_LEN ==> |Emitted(src, data)| <= 4 * UART_MAX_LEN
  {
    var a := Str(HexBytes(data));
    SizeByMask(30);
    SizeByMask(2);
    SizeByMask(2 * |data|);
    WireEnd(AddressText(src), TAGS, [a]);
    assert [a][..0] == [];
    assert ArgsBytes([a]) == ArgsBytes([]) + ArgBytes(a);
    hide Wire, AddressText;
  }

  lemma {:induction false} HexIsText(data: seq<Byte>)
    requires |data| < UART_MAX_LEN
    ensures Text(HexBytes(data))
  {
  }

  /** An OSC reader gets back the address and one string, and these spell out source and data. */
  lemma {:induction false} EmittedDecodes(buf: seq<Byte>, src: Address, data: seq<Byte>)
    requires |data| < UART_MAX_LEN && Emitted(src, data) <= buf
    ensures var len := |Emitted(src, data)|; var p := ParseOf(buf, len);
            && buf[..Seek(buf, 0, 0, len)] == AddressText(src)
            && p.Parsed? && ReadArgs(buf, len, p.marker, TAGS) == AllGot([Str(HexBytes(data))], len)
    ensures Unhex(AddressText(src)[|PREFIX|..]) == src && Unhex(HexBytes(data)) == data
  {
    var args := [Str(HexBytes(data))];
    AddressTextIsHex(src);
    HexIsText(data);
    assert Carries(buf, AddressText(src), TAGS, args) && Text(TAGS);
    assert WellTyped(TAGS, args) && AllKnown(TAGS) && Echo(args[0]) == args[0];
    OscRoundTrip(buf, AddressText(src), TAGS, args);
    assert Echoes(args) == args;
    AddressFound(buf, AddressText(src), TAGS, args);
    UnhexUndoes(src);
    UnhexUndoes(data);
    assert AddressText(src)[|PREFIX|..] == HexBytes(src);
  }

  lemma {:induction false} AddressFound(buf: seq<Byte>, address: seq<Byte>, format: seq<Byte>, args: seq<Arg>)
    requires Text(address) && Text(format) && Carries(buf, address, format, args)
    ensures buf[..Seek(buf, 0, 0, |Wire(address, format, args)|)] == address
  {
    WireEnd(address, format, args);
    assert Head(address, format) <= Wire(address, format, args) <= buf;
    ParseFindsHead(buf, |Wire(address, format, args)|, address, format);
  }

  /** Different sources or data make different OSC messages. */
  lemma {:induction false} EmissionInjective(src: Address, data: seq<Byte>, src': Address, data': seq<Byte>)
    requires |data| < UART_MAX_LEN && |data'| < UART_MAX_LEN
    requires Emitted(src, data) == Emitted(src', data')
    ensures src == src' && data == data'
  {
    EmittedDecodes(Emitted(src, data), src, data);
    EmittedDecodes(Emitted(src, data), src', data');
  }

  // ---- The bridge's sending thread

  datatype Outcome = Skipped | Sent(len: nat)

  /** The append loop: two upper-case digits for every data byte. */
  method RenderData(data: seq<Byte>) returns (text: seq<Byte>)
    ensures text == HexBytes(data)
  {
    text := [];
    assert data[..0] == [];
    for i := 0 to |data|
      invariant text == HexBytes(data[..i])
    {
      TwoDigits(data[i]);
      assert data[..i + 1][..i] == data[..i];
      text := text + [HexDigit(data[i] / 16), HexDigit(data[i] % 16)];
    }
    assert data[..|data|] == data;
  }

  /**
   * One queued message: packet messages are written to the buffer as OSC and sent, others are skipped;
   * the writer's error codes never arise.
   */
  method Emit(msg: seq<Byte>, buf: array<Byte>) returns (r: Outcome)
    requires M.MSG_HDR <= |msg| <= UART_MAX_LEN && M.HeaderLen(msg) == |msg|
    requires M.HeaderType(msg) == M.MSG_TYPE_PKT ==> M.PKT_MSG <= |msg|
    requires buf.Length == 4 * UART_MAX_LEN
    modifies buf
    ensures r.Skipped? <==> M.HeaderType(msg) != M.MSG_TYPE_PKT
    ensures r.Sent? ==>
              var e := Emitted(msg[3..11], msg[M.PKT_MSG..]);
              r.len == |e| <= buf.Length && buf[..r.len] == e
  {
    if M.HeaderType(msg) != M.MSG_TYPE_PKT {
      return Skipped;
    }
    var src: Address, data := msg[3..11], msg[M.PKT_MSG..];
    AddressTextIsHex(src);
    HexIsText(data);
    EmittedSize(src, data);
    var text := RenderData(data);
    var args := [Str(text)];
    EmissionFits(src, data, buf.Length);
    var w := TinyOsc.Write(buf, AddressText(src), TAGS, args);
    hide Wire, TinyOsc.HeadFits, TinyOsc.FitUpTo;
    assert w.Written?;
    assert TinyOsc.Fill(Emitted(src, data), buf.Length)[..w.n] == Emitted(src, data);
    assert buf[..w.n] == buf[..][..w.n];
    r := Sent(w.n);
  }

  lemma {:induction false} EmissionFits(src: Address, data: seq<Byte>, cap: nat)
    requires M.PKT_MSG + |data| <= UART_MAX_LEN && cap == 4 * UART_MAX_LEN
    ensures var args := [Str(HexBytes(data))];
            && TinyOsc.Writable(AddressText(src), TAGS, args, cap)
            && !TinyOsc.CommaStrays(AddressText(src), cap)
            && TinyOsc.HeadFits(AddressText(src), TAGS, cap)
            && TinyOsc.FitUpTo(AddressText(src), TAGS, args, |args|, cap)
  {
    var args := [Str(HexBytes(data))];
    AddressTextIsHex(src);
    HexIsText(data);
    EmittedSize(src, data);
    assert AllKnown(TAGS) && WellTyped(TAGS, args);
    TinyOsc.CapacityExact(AddressText(src), TAGS, args, cap);
    SizeByMask(30);
    hide AddressText, TinyOsc.FitUpTo, TinyOsc.HeadFits, TinyOsc.End, Wire;
  }
}
