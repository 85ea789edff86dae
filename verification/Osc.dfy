/**
 * OSC messages as bytes: an address pattern, a type tag string and arguments, each padded with zeros to a
 * multiple of four (OSC 1.0, sections "Atomic Data Types", "OSC Messages" and "OSC Type Tag String"), and
 * the reader's view of such bytes.
 */
module Osc {
  import opened Bytes
  import opened ByteOrder

  const COMMA: Byte := ',' as int

  /** One argument; T, F, N and I carry no data and are all Flag. */
  datatype Arg =
    | Blob(data: seq<Byte>)
    | Float(bits: U32)
    | Double(pattern: U64)
    | Int(v: S32)
    | Long(w: U64)
    | Str(s: seq<Byte>)
    | Flag

  /** The bytes of a text of characters below 256. */
  function Ascii(t: string): (s: seq<Byte>)
    ensures |s| == |t|
    ensures forall k :: 0 <= k < |t| && t[k] < 256 as char ==> s[k] == t[k] as int
  {
    seq(|t|, k requires 0 <= k < |t| => if t[k] < 256 as char then t[k] as int else 0)
  }

  /** The contents of a C string. */
  predicate Text(s: seq<Byte>) {
    0 !in s && |s| < 0x8000_0000
  }

  predicate IsFlag(tag: Byte) {
    tag == 'T' as int || tag == 'F' as int || tag == 'N' as int || tag == 'I' as int
  }

  predicate Known(tag: Byte) {
    || tag == 'b' as int || tag == 'f' as int || tag == 'd' as int || tag == 'i' as int
    || tag == 'h' as int || tag == 's' as int || IsFlag(tag)
  }

  predicate AllKnown(format: seq<Byte>) {
    forall j :: 0 <= j < |format| ==> Known(format[j])
  }

  /** The argument a caller has to supply for a tag; one the writer does not know consumes none. */
  predicate Matches(tag: Byte, a: Arg) {
    if tag == 'b' as int then a.Blob? && |a.data| < 0x8000_0000
    else if tag == 'f' as int then a.Float?
    else if tag == 'd' as int then a.Double?
    else if tag == 'i' as int then a.Int?
    else if tag == 'h' as int then a.Long?
    else if tag == 's' as int then a.Str? && Text(a.s)
    else a.Flag?
  }

  predicate WellTyped(format: seq<Byte>, args: seq<Arg>) {
    |args| == |format| && forall k :: 0 <= k < |args| ==> Matches(format[k], args[k])
  }

  /** Size of an n-byte string with its terminator: the next multiple of four. */
  function StrSize(n: nat): (r: nat)
    ensures n < r <= n + 4
  {
    if n < 4 then 4 else 4 + StrSize(n - 4)
  }

  /** n rounded up to a multiple of four. */
  function Round4(n: nat): (r: nat)
    ensures n <= r < n + 4
  {
    if n == 0 then 0 else StrSize(n - 1)
  }

  /** The sizes as the code computes them: add, then clear the two low bits. */
  function Mask4(n: nat): nat {
    n / 4 * 4
  }

  lemma {:induction false} SizeByMask(n: nat)
    ensures StrSize(n) == Mask4(n + 4) && Round4(n) == Mask4(n + 3)
    ensures StrSize(n) % 4 == 0 && Round4(n) % 4 == 0
  {
    if n >= 4 {
      SizeByMask(n - 4);
    }
  }

  lemma {:induction false} MaskShift(at: nat, n: nat)
    requires at % 4 == 0
    ensures Mask4(at + n) == at + Mask4(n)
  {
  }

  function PaddedTo(s: seq<Byte>, size: nat): (r: seq<Byte>)
    requires |s| <= size
    ensures |r| == size && r[..|s|] == s
    ensures forall k :: |s| <= k < size ==> r[k] == 0
  {
    s + Zeros(size - |s|)
  }

  function StrBytes(s: seq<Byte>): seq<Byte> {
    PaddedTo(s, StrSize(|s|))
  }

  /** Numbers are big-endian, except that 64-bit ones are left in the machine's little-endian order. */
  function ArgBytes(a: Arg): seq<Byte> {
    match a
    case Blob(data) => ToBE(|data|, 4) + PaddedTo(data, Round4(|data|))
    case Float(bits) => ToBE(bits, 4)
    case Double(pattern) => ToLE(pattern, 8)
    case Int(v) => ToBE(Pattern32(v), 4)
    case Long(w) => ToLE(w, 8)
    case Str(s) => StrBytes(s)
    case Flag => []
  }

  /** How much of ArgBytes is more than padding: up to and including a string's terminator. */
  function Extent(a: Arg): (n: nat)
    ensures n <= |ArgBytes(a)| < n + 4
  {
    match a
    case Blob(data) => 4 + |data|
    case Str(s) => |s| + 1
    case _ => |ArgBytes(a)|
  }

  /** Beyond its extent an argument is all zeros. */
  lemma {:induction false} PaddingIsZero(a: Arg, k: nat)
    requires Extent(a) <= k < |ArgBytes(a)|
    ensures ArgBytes(a)[k] == 0
  {
    if a.Blob? {
      assert ArgBytes(a)[k] == PaddedTo(a.data, Round4(|a.data|))[k - 4];
    }
  }

  /** A 32-bit integer or float goes most significant byte first. */
  lemma {:induction false} WordBytes(a: Arg)
    requires a.Int? || a.Float?
    ensures var n := if a.Float? then a.bits else if a.v < 0 then a.v + 0x1_0000_0000 else a.v;
            ArgBytes(a) == [n / 0x100_0000, n / 0x1_0000 % 256, n / 0x100 % 256, n % 256]
  {
    BigBytes(if a.Float? then a.bits else Pattern32(a.v));
    hide ToBE;
  }

  /** What lies within the extent: all of a blob behind its length, all of a string and its terminator. */
  lemma {:induction false} ExtentHoldsAll(a: Arg)
    ensures a.Blob? ==> ArgBytes(a)[..4] == ToBE(|a.data|, 4) && ArgBytes(a)[4..Extent(a)] == a.data
    ensures a.Str? ==> ArgBytes(a)[..Extent(a)] == a.s + [0]
    ensures a.Float? || a.Int? ==> Extent(a) == |ArgBytes(a)| == 4
    ensures a.Double? || a.Long? ==> Extent(a) == |ArgBytes(a)| == 8
    ensures a.Flag? ==> ArgBytes(a) == []
  {
    if a.Blob? {
      var pad := PaddedTo(a.data, Round4(|a.data|));
      assert ArgBytes(a) == ToBE(|a.data|, 4) + pad;
      hide ToBE, PaddedTo, Round4, Zeros, ArgBytes;
      assert (ToBE(|a.data|, 4) + pad)[4..] == pad;
      assert ArgBytes(a)[4..4 + |a.data|] == pad[..|a.data|];
    }
  }

  /** The tags the writer knows, letter by letter. */
  lemma {:induction false} KnownTags(tag: Byte)
    ensures Known(tag) <==> tag in Ascii("bfdihsTFNI")
  {
    var t := "bfdihsTFNI";
    assert Ascii(t) == [98, 102, 100, 105, 104, 115, 84, 70, 78, 73];
  }

  function ArgsBytes(args: seq<Arg>): seq<Byte> {
    if args == [] then [] else ArgsBytes(args[..|args| - 1]) + ArgBytes(args[|args| - 1])
  }

  function Head(address: seq<Byte>, format: seq<Byte>): (r: seq<Byte>)
    ensures |r| == StrSize(|address|) + StrSize(1 + |format|)
  {
    StrBytes(address) + StrBytes([COMMA] + format)
  }

  /** The whole message. */
  function Wire(address: seq<Byte>, format: seq<Byte>, args: seq<Arg>): seq<Byte> {
    Head(address, format) + ArgsBytes(args)
  }

  /** Where argument k starts. */
  function Offset(address: seq<Byte>, format: seq<Byte>, args: seq<Arg>, k: nat): nat
    requires k <= |args|
  {
    |Head(address, format)| + |ArgsBytes(args[..k])|
  }

  lemma {:induction false} SumAligned(a: nat, b: nat)
    requires a % 4 == 0 && b % 4 == 0
    ensures (a + b) % 4 == 0
  {
  }

  lemma {:induction false} ArgSize(a: Arg)
    ensures |ArgBytes(a)| == match a
                             case Blob(data) => 4 + Round4(|data|)
                             case Double(_) => 8
                             case Long(_) => 8
                             case Str(s) => StrSize(|s|)
                             case Flag => 0
                             case _ => 4
  {
    hide StrSize, Round4, Zeros, ToBE, ToLE;
  }

  lemma {:induction false} ArgAligned(a: Arg)
    ensures |ArgBytes(a)| % 4 == 0
  {
    hide *;
    ArgSize(a);
    if a.Blob? {
      SizeByMask(|a.data|);
      SumAligned(4, Round4(|a.data|));
    } else if a.Str? {
      SizeByMask(|a.s|);
    }
  }

  lemma {:induction false} ArgsAligned(args: seq<Arg>)
    ensures |ArgsBytes(args)| % 4 == 0
  {
    if args != [] {
      assert ArgsBytes(args) == ArgsBytes(args[..|args| - 1]) + ArgBytes(args[|args| - 1]);
      hide *;
      ArgsAligned(args[..|args| - 1]);
      ArgAligned(args[|args| - 1]);
      SumAligned(|ArgsBytes(args[..|args| - 1])|, |ArgBytes(args[|args| - 1])|);
    }
  }

  /** Every argument starts at a multiple of four, and the message is a multiple of four long. */
  lemma {:induction false} Aligned(address: seq<Byte>, format: seq<Byte>, args: seq<Arg>, k: nat)
    requires k <= |args|
    ensures Offset(address, format, args, k) % 4 == 0
    ensures |Wire(address, format, args)| % 4 == 0
    ensures |Wire(address, format, args)| == Offset(address, format, args, |args|)
  {
    hide Head, ArgsBytes, Wire;
    HeadAligned(address, format);
    ArgsAligned(args);
    ArgsAligned(args[..k]);
    WireEnd(address, format, args);
    SumAligned(|Head(address, format)|, |ArgsBytes(args)|);
    SumAligned(|Head(address, format)|, |ArgsBytes(args[..k])|);
  }

  lemma {:induction false} WireEnd(address: seq<Byte>, format: seq<Byte>, args: seq<Arg>)
    ensures |Wire(address, format, args)| == Offset(address, format, args, |args|)
    ensures |Wire(address, format, args)| == |Head(address, format)| + |ArgsBytes(args)|
  {
    hide Head, ArgsBytes;
    assert args[..|args|] == args;
  }

  lemma {:induction false} HeadAligned(address: seq<Byte>, format: seq<Byte>)
    ensures |Head(address, format)| % 4 == 0
  {
    SizeByMask(|address|);
    SizeByMask(1 + |format|);
    hide StrBytes, StrSize;
    SumAligned(StrSize(|address|), StrSize(1 + |format|));
  }

  lemma {:induction false} ArgsStep(args: seq<Arg>, k: nat)
    requires k < |args|
    ensures ArgsBytes(args[..k + 1]) == ArgsBytes(args[..k]) + ArgBytes(args[k])
  {
    assert args[..k + 1][..k] == args[..k];
  }

  /** The bytes of argument k sit at its offset, whatever follows. */
  lemma {:induction false} ArgsAt(args: seq<Arg>, k: nat)
    requires k < |args|
    ensures ArgsBytes(args[..k]) + ArgBytes(args[k]) == ArgsBytes(args[..k + 1]) <= ArgsBytes(args)
  {
    hide ArgBytes;
    ArgsStep(args, k);
    if k + 1 == |args| {
      assert args[..k + 1] == args;
    } else {
      var most := args[..|args| - 1];
      ArgsAt(most, k);
      assert most[..k] == args[..k] && most[..k + 1] == args[..k + 1];
    }
  }

  // ---- Reading

  /** First position from i on, before end, that holds b; end if there is none. */
  function Seek(buf: seq<Byte>, b: Byte, i: nat, end: nat): (r: nat)
    requires i <= end <= |buf|
    ensures i <= r <= end
    ensures forall k :: i <= k < r ==> buf[k] != b
    ensures r < end ==> buf[r] == b
    decreases end - i
  {
    if i == end || buf[i] == b then i else Seek(buf, b, i + 1, end)
  }

  lemma {:induction false} SeekFinds(buf: seq<Byte>, b: Byte, i: nat, end: nat, r: nat)
    requires i <= r < end <= |buf| && buf[r] == b
    requires forall k :: i <= k < r ==> buf[k] != b
    ensures Seek(buf, b, i, end) == r
  {
  }

  /** What tosc_parseMessage finds: where the tags and the arguments start, or why it gives up. */
  datatype Parsed = Parsed(format: nat, marker: nat) | NoComma | Unterminated

  function ParseOf(buf: seq<Byte>, len: nat): Parsed
    requires len <= |buf|
  {
    var comma := Seek(buf, COMMA, 0, len);
    if comma == len then NoComma
    else
      var nul := Seek(buf, 0, comma, len);
      if nul == len then Unterminated
      else Parsed(comma + 1, Mask4(nul + 4))
  }

  /** Parsing gives up exactly when there is no comma, or no terminator behind the first one. */
  lemma {:induction false} ParseGivesUp(buf: seq<Byte>, len: nat)
    requires len <= |buf|
    ensures ParseOf(buf, len) == NoComma <==> forall k :: 0 <= k < len ==> buf[k] != ','  as int
    ensures ParseOf(buf, len) == Unterminated <==>
            exists c :: 0 <= c < len && buf[c] == ',' as int && (forall k :: 0 <= k < c ==> buf[k] != ',' as int)
                        && (forall k :: c <= k < len ==> buf[k] != 0)
  {
    var c := Seek(buf, COMMA, 0, len);
    if c < len {
      var nul := Seek(buf, 0, c, len);
      assert nul < len ==> ParseOf(buf, len).Parsed?;
      hide Seek, Mask4;
    }
  }

  /** One getter's result and the position it leaves the marker at; Null where it finds no argument in bounds. */
  datatype Got = Got(arg: Arg, next: nat) | Null

  function Beyond(m: nat, n: nat, buf: seq<Byte>): bool {
    m + n > |buf|
  }

  function BigWord(s: seq<Byte>): U32
    requires |s| == 4
  {
    BEBytes(s);
    Pow256Values();
    FromBE(s)
  }

  function ReadArg(buf: seq<Byte>, len: nat, m: nat, tag: Byte): Got
    requires len <= |buf|
  {
    if tag == 'i' as int then
      if Beyond(m, 4, buf) then Null else Got(Int(Signed32(BigWord(buf[m..m + 4]))), m + 4)
    else if tag == 'f' as int then
      if Beyond(m, 4, buf) then Null else Got(Float(BigWord(buf[m..m + 4])), m + 4)
    else if tag == 'd' as int then
      if Beyond(m, 8, buf) then Null else Got(Double(BigWide(buf[m..m + 8])), m + 8)
    else if tag == 'h' as int then
      if Beyond(m, 8, buf) then Null else Got(Long(BigWide(buf[m..m + 8])), m + 8)
    else if tag == 's' as int then
      if m > len then Null
      else
        var nul := Seek(buf, 0, m, len);
        if nul == len then Null else Got(Str(buf[m..nul]), m + Mask4(nul - m + 4))
    else if tag == 'b' as int then
      if Beyond(m, 4, buf) then Null
      else
        var n := Signed32(BigWord(buf[m..m + 4]));
        if n < 0 || m + 4 + n > len then Null else Got(Blob(buf[m + 4..m + 4 + n]), m + Mask4(n + 7))
    else Got(Flag, m)
  }

  /** The string getter refuses exactly the strings that do not end inside the message. */
  lemma {:induction false} StringRefused(buf: seq<Byte>, len: nat, m: nat)
    requires len <= |buf|
    ensures ReadArg(buf, len, m, 's' as int) == Null <==> forall k :: m <= k < len ==> buf[k] != 0
  {
  }

  datatype AllGot = AllGot(args: seq<Arg>, next: nat) | Stopped

  /** The getters called for every tag in turn, as tosc_printMessage calls them. */
  function ReadArgs(buf: seq<Byte>, len: nat, m: nat, format: seq<Byte>): AllGot
    requires len <= |buf|
  {
    if format == [] then AllGot([], m)
    else
      match ReadArgs(buf, len, m, format[..|format| - 1])
      case Stopped => Stopped
      case AllGot(args, at) =>
        match ReadArg(buf, len, at, format[|format| - 1])
        case Null => Stopped
        case Got(a, next) => AllGot(args + [a], next)
  }

  // ---- Round trip

  /** What the reader makes of an argument: 64-bit ones come back byte-swapped. */
  function Echo(a: Arg): Arg {
    match a
    case Double(p) => Double(Swap64(p))
    case Long(w) => Long(Swap64(w))
    case _ => a
  }

  function Echoes(args: seq<Arg>): (r: seq<Arg>)
    ensures |r| == |args|
    ensures forall k :: 0 <= k < |args| ==> r[k] == Echo(args[k])
  {
    seq(|args|, k requires 0 <= k < |args| => Echo(args[k]))
  }

  /** An argument is echoed unchanged unless it is 64 bits wide and not the same backwards. */
  lemma {:induction false} EchoFaithful(a: Arg)
    ensures Echo(a) == a <==> Symmetric(a)
  {
    var n := if a.Double? then a.pattern else if a.Long? then a.w else 0;
    Pow256Values();
    BERoundTrip(n, 8);
    BEBytes(ToLE(n, 8));
  }

  lemma {:induction false} ReadBackBlob(buf: seq<Byte>, len: nat, m: nat, data: seq<Byte>)
    requires |data| < 0x8000_0000
    requires m + |ArgBytes(Blob(data))| <= len <= |buf| && buf[m..m + |ArgBytes(Blob(data))|] == ArgBytes(Blob(data))
    ensures ReadArg(buf, len, m, 'b' as int) == Got(Blob(data), m + |ArgBytes(Blob(data))|)
  {
    var pad := PaddedTo(data, Round4(|data|));
    var x := buf[m..m + 4 + |pad|];
    assert x == ToBE(|data|, 4) + pad;
    assert buf[m..m + 4] == x[..4] == ToBE(|data|, 4);
    Pow256Values();
    BERoundTrip(|data|, 4);
    assert buf[m + 4..m + 4 + |pad|] == x[4..] == pad;
    assert buf[m + 4..m + 4 + |data|] == pad[..|data|];
    RoundBlob(|data|);
  }

  lemma {:induction false} RoundBlob(n: nat)
    ensures Mask4(n + 7) == 4 + Round4(n)
  {
    SizeByMask(n);
    MaskShift(4, n + 3);
  }

  lemma {:induction false} ReadBackStr(buf: seq<Byte>, len: nat, m: nat, s: seq<Byte>)
    requires Text(s)
    requires m + |StrBytes(s)| <= len <= |buf| && buf[m..m + |StrBytes(s)|] == StrBytes(s)
    ensures ReadArg(buf, len, m, 's' as int) == Got(Str(s), m + |StrBytes(s)|)
  {
    var x := buf[m..m + |StrBytes(s)|];
    SizeByMask(|s|);
    assert x[..|s|] == s && x[|s|] == 0 && |x| == StrSize(|s|);
    hide StrBytes, StrSize, Mask4, Zeros;
    assert buf[m + |s|] == x[|s|];
    StandsAt(buf, m, x, s);
    SeekFinds(buf, 0, m, len, m + |s|);
  }

  lemma {:induction false} StandsAt(buf: seq<Byte>, m: nat, x: seq<Byte>, s: seq<Byte>)
    requires Text(s) && s <= x && m + |x| <= |buf| && buf[m..m + |x|] == x
    ensures buf[m..m + |s|] == s
    ensures forall k :: m <= k < m + |s| ==> buf[k] != 0
  {
    assert buf[m..m + |s|] == x[..|s|] == s;
    forall k | m <= k < m + |s| ensures buf[k] != 0 {
      assert buf[k] == s[k - m] && s[k - m] in s;
    }
  }

  /** Where the bytes of one argument stand in the buffer, its getter gives it back and moves just past it. */
  lemma {:induction false} ReadBack(buf: seq<Byte>, len: nat, m: nat, tag: Byte, a: Arg)
    requires Known(tag) && Matches(tag, a)
    requires m + |ArgBytes(a)| <= len <= |buf| && buf[m..m + |ArgBytes(a)|] == ArgBytes(a)
    ensures ReadArg(buf, len, m, tag) == Got(Echo(a), m + |ArgBytes(a)|)
  {
    if a.Blob? {
      ReadBackBlob(buf, len, m, a.data);
    } else if a.Str? {
      ReadBackStr(buf, len, m, a.s);
    } else {
      Pow256Values();
      if a.Float? {
        BERoundTrip(a.bits, 4);
      } else if a.Int? {
        BERoundTrip(Pattern32(a.v), 4);
      }
    }
  }

  /** The message is in the buffer from its start. */
  predicate Carries(buf: seq<Byte>, address: seq<Byte>, format: seq<Byte>, args: seq<Arg>) {
    Wire(address, format, args) <= buf
  }

  /** A padded string in the buffer: its own bytes, then zeros. */
  lemma {:induction false} StringAt(buf: seq<Byte>, at: nat, s: seq<Byte>)
    requires at + |StrBytes(s)| <= |buf| && buf[at..at + |StrBytes(s)|] == StrBytes(s)
    ensures forall k :: at <= k < at + |s| ==> buf[k] == s[k - at]
    ensures forall k :: at + |s| <= k < at + |StrBytes(s)| ==> buf[k] == 0
    ensures |s| < |StrBytes(s)| && buf[at..at + |s|] == s
  {
    var x := StrBytes(s);
    assert forall k :: at <= k < at + |x| ==> buf[k] == x[k - at];
    assert buf[at..at + |s|] == x[..|s|];
  }

  /** Where the head's two strings stand. */
  lemma {:induction false} HeadParts(buf: seq<Byte>, address: seq<Byte>, format: seq<Byte>)
    requires Head(address, format) <= buf
    ensures var c, e := |StrBytes(address)|, |Head(address, format)|;
            && 0 < c < e && e == c + |StrBytes([COMMA] + format)|
            && buf[0..c] == StrBytes(address) && buf[c..e] == StrBytes([COMMA] + format)
  {
    var h := Head(address, format);
    assert buf[..|h|] == h;
    assert buf[0..|h|][|StrBytes(address)|..] == StrBytes([COMMA] + format);
  }

  /** A comma-free string, then the type tag string: where the seeks for comma and terminators end. */
  lemma {:induction false} SeeksInHead(buf: seq<Byte>, len: nat, c: nat, e: nat, address: seq<Byte>, format: seq<Byte>)
    requires Text(address) && Text(format) && |address| < c && c + 1 + |format| < e <= len <= |buf|
    requires forall k :: 0 <= k < |address| ==> buf[k] == address[k]
    requires forall k :: |address| <= k < c ==> buf[k] == 0
    requires buf[c] == COMMA && forall k :: c + 1 <= k < c + 1 + |format| ==> buf[k] == format[k - c - 1]
    requires buf[c + 1 + |format|] == 0
    ensures Seek(buf, 0, 0, len) == |address|
    ensures Seek(buf, COMMA, 0, len) == c <==> COMMA !in address
    ensures Seek(buf, 0, c, len) == Seek(buf, 0, c + 1, len) == c + 1 + |format|
  {
    var t := c + 1 + |format|;
    assert forall k :: 0 <= k < |address| ==> address[k] in address;
    assert forall k :: 0 <= k < |format| ==> format[k] in format;
    SeekFinds(buf, 0, 0, len, |address|);
    SeekFinds(buf, 0, c, len, t);
    SeekFinds(buf, 0, c + 1, len, t);
    if COMMA in address {
      var k :| 0 <= k < |address| && address[k] == COMMA;
      assert buf[k] == COMMA;
    } else {
      SeekFinds(buf, COMMA, 0, len, c);
    }
  }

  /**
   * Parsing a written message finds its type tags, and its arguments right after the head, exactly when
   * the address holds no comma; the address itself is the string at the start of the buffer.
   */
  lemma {:induction false} ParseFindsHead(buf: seq<Byte>, len: nat, address: seq<Byte>, format: seq<Byte>)
    requires |Head(address, format)| <= len <= |buf| && Head(address, format) <= buf
    requires Text(address) && Text(format)
    ensures ParseOf(buf, len) == Parsed(|StrBytes(address)| + 1, |Head(address, format)|) <==> COMMA !in address
    ensures Seek(buf, 0, 0, len) == |address| && buf[..|address|] == address
    ensures var f := |StrBytes(address)| + 1;
            Seek(buf, 0, f, len) == f + |format| && buf[f..f + |format|] == format
  {
    hide *;
    var c, e := |StrBytes(address)|, |Head(address, format)|;
    HeadLayout(buf, address, format);
    TagEnd(|address|, |format|);
    SeeksInHead(buf, len, c, e, address, format);
    ParsedHead(buf, len, address, format);
    assert buf[..|address|] == address;
    assert buf[c + 1..c + 1 + |format|] == format;
  }

  lemma {:induction false} ParsedHead(buf: seq<Byte>, len: nat, address: seq<Byte>, format: seq<Byte>)
    requires |Head(address, format)| <= len <= |buf|
    requires var c := |StrBytes(address)|;
             (Seek(buf, COMMA, 0, len) == c <==> COMMA !in address) && Seek(buf, 0, c, len) == c + 1 + |format| < len
    ensures ParseOf(buf, len) == Parsed(|StrBytes(address)| + 1, |Head(address, format)|) <==> COMMA !in address
  {
    var c := |StrBytes(address)|;
    TagEnd(|address|, |format|);
    assert c == StrSize(|address|) && |Head(address, format)| == c + StrSize(1 + |format|);
    hide StrBytes, Head, StrSize, Seek, Mask4;
  }

  lemma {:induction false} HeadLayout(buf: seq<Byte>, address: seq<Byte>, format: seq<Byte>)
    requires Head(address, format) <= buf
    ensures var c, e := |StrBytes(address)|, |Head(address, format)|;
            && |address| < c && c + 1 + |format| < e
            && (forall k :: 0 <= k < |address| ==> buf[k] == address[k])
            && (forall k :: |address| <= k < c ==> buf[k] == 0)
            && buf[c] == COMMA
            && (forall k :: c + 1 <= k < c + 1 + |format| ==> buf[k] == format[k - c - 1])
            && buf[c + 1 + |format|] == 0
  {
    hide *;
    var c, tags := |StrBytes(address)|, [COMMA] + format;
    HeadParts(buf, address, format);
    StringAt(buf, 0, address);
    StringAt(buf, c, tags);
    assert forall k :: c + 1 <= k < c + 1 + |format| ==> buf[k] == tags[k - c] == format[k - c - 1];
  }

  lemma {:induction false} TagEnd(c: nat, n: nat)
    ensures Mask4(StrSize(c) + 1 + n + 4) == StrSize(c) + StrSize(1 + n)
  {
    SizeByMask(c);
    SizeByMask(1 + n);
    MaskShift(StrSize(c), 1 + n + 4);
  }

  /** A whole message of known tags stands in the first len bytes of the buffer. */
  predicate Holds(buf: seq<Byte>, len: nat, address: seq<Byte>, format: seq<Byte>, args: seq<Arg>) {
    && WellTyped(format, args) && AllKnown(format)
    && |Wire(address, format, args)| <= len <= |buf| && Carries(buf, address, format, args)
  }

  /** Reading the first k tags gives the first k arguments, echoed, and stops where the next one starts. */
  lemma {:induction false} ReadsBack(
      buf: seq<Byte>, len: nat, address: seq<Byte>, format: seq<Byte>, args: seq<Arg>, k: nat)
    requires k <= |args| == |format| && len <= |buf| && Holds(buf, len, address, format, args)
    ensures ReadArgs(buf, len, |Head(address, format)|, format[..k])
            == AllGot(Echoes(args[..k]), Offset(address, format, args, k))
  {
    hide *;
    if k == 0 {
      ReadsNone(buf, len, address, format, args);
    } else {
      ReadsBack(buf, len, address, format, args, k - 1);
      ReadsNext(buf, len, address, format, args, k - 1);
      var at := Offset(address, format, args, k - 1);
      ReadArgsStep(buf, len, |Head(address, format)|, format[..k - 1], format[k - 1], Echoes(args[..k - 1]), at);
      EchoesStep(args, k - 1);
      assert format[..k] == format[..k - 1] + [format[k - 1]];
    }
  }

  lemma {:induction false} ReadsNone(
      buf: seq<Byte>, len: nat, address: seq<Byte>, format: seq<Byte>, args: seq<Arg>)
    requires len <= |buf|
    ensures ReadArgs(buf, len, |Head(address, format)|, format[..0])
            == AllGot(Echoes(args[..0]), Offset(address, format, args, 0))
  {
    hide Head;
    assert format[..0] == [] && args[..0] == [] && Echoes([]) == [];
  }

  lemma {:induction false} ReadArgsStep(
      buf: seq<Byte>, len: nat, m: nat, tags: seq<Byte>, tag: Byte, args: seq<Arg>, at: nat)
    requires len <= |buf| && ReadArgs(buf, len, m, tags) == AllGot(args, at) && ReadArg(buf, len, at, tag).Got?
    ensures var g := ReadArg(buf, len, at, tag);
            ReadArgs(buf, len, m, tags + [tag]) == AllGot(args + [g.arg], g.next)
  {
    hide ReadArg;
    assert (tags + [tag])[..|tags|] == tags;
  }

  lemma {:induction false} EchoesStep(args: seq<Arg>, k: nat)
    requires k < |args|
    ensures Echoes(args[..k + 1]) == Echoes(args[..k]) + [Echo(args[k])]
  {
    hide Echo;
  }

  lemma {:induction false} ReadsNext(
      buf: seq<Byte>, len: nat, address: seq<Byte>, format: seq<Byte>, args: seq<Arg>, k: nat)
    requires k < |args| == |format| && len <= |buf| && Holds(buf, len, address, format, args)
    ensures ReadArg(buf, len, Offset(address, format, args, k), format[k])
            == Got(Echo(args[k]), Offset(address, format, args, k + 1))
  {
    hide ReadArg, ArgBytes, ArgsBytes, Head, Known, Matches;
    var at, x := Offset(address, format, args, k), ArgBytes(args[k]);
    ArgsAt(args, k);
    CarriedArg(buf, Head(address, format), ArgsBytes(args), ArgsBytes(args[..k]), x);
    ReadBack(buf, len, at, format[k], args[k]);
  }

  lemma {:induction false} CarriedArg(buf: seq<Byte>, h: seq<Byte>, all: seq<Byte>, before: seq<Byte>, x: seq<Byte>)
    requires h + all <= buf && before + x <= all
    ensures |h| + |before| + |x| <= |h + all| && buf[|h| + |before|..|h| + |before| + |x|] == x
  {
    assert all[|before|..|before| + |x|] == (before + x)[|before|..] == x;
    assert buf[|h|..|h| + |all|] == all;
  }

  lemma {:induction false} HoldsItself(buf: seq<Byte>, address: seq<Byte>, format: seq<Byte>, args: seq<Arg>)
    requires WellTyped(format, args) && AllKnown(format) && Carries(buf, address, format, args)
    ensures var len := |Wire(address, format, args)|;
            && len == Offset(address, format, args, |args|) <= |buf|
            && |Head(address, format)| <= len && Head(address, format) <= buf
            && Holds(buf, len, address, format, args) && |args| == |format|
  {
    WireEnd(address, format, args);
    hide Head, ArgsBytes, Known, Matches;
    assert Head(address, format) <= Wire(address, format, args) <= buf;
  }

  /**
   * Round trip: a message whose address holds no comma, whose tags are all known, parses to its own tags,
   * and the getters give back its arguments in order, 64-bit ones byte-swapped, with the marker ending at
   * the length of the message.
   */
  lemma {:induction false} OscRoundTrip(buf: seq<Byte>, address: seq<Byte>, format: seq<Byte>, args: seq<Arg>)
    requires Text(address) && COMMA !in address && Text(format)
    requires WellTyped(format, args) && AllKnown(format)
    requires Carries(buf, address, format, args)
    ensures var len, p := |Wire(address, format, args)|, ParseOf(buf, |Wire(address, format, args)|);
            && p.Parsed? && p.format <= len && FormatOf(buf, len, p) == format
            && ReadArgs(buf, len, p.marker, format) == AllGot(Echoes(args), len)
  {
    var len := |Wire(address, format, args)|;
    HoldsItself(buf, address, format, args);
    hide *;
    ParseFindsHead(buf, len, address, format);
    FormatFound(buf, len, ParseOf(buf, len), format);
    ReadsAllBack(buf, len, address, format, args);
  }

  lemma {:induction false} ReadsAllBack(
      buf: seq<Byte>, len: nat, address: seq<Byte>, format: seq<Byte>, args: seq<Arg>)
    requires |args| == |format| && len <= |buf| && Holds(buf, len, address, format, args)
    ensures ReadArgs(buf, len, |Head(address, format)|, format)
            == AllGot(Echoes(args), Offset(address, format, args, |args|))
  {
    hide *;
    ReadsBack(buf, len, address, format, args, |args|);
    assert format[..|args|] == format && args[..|args|] == args;
  }

  /** The type tag string a parsed message points at. */
  function FormatOf(buf: seq<Byte>, len: nat, p: Parsed): seq<Byte>
    requires len <= |buf| && p.Parsed? && p.format <= len
  {
    buf[p.format..Seek(buf, 0, p.format, len)]
  }

  lemma {:induction false} FormatFound(buf: seq<Byte>, len: nat, p: Parsed, format: seq<Byte>)
    requires len <= |buf| && p.Parsed? && p.format + |format| <= len
    requires Seek(buf, 0, p.format, len) == p.format + |format| && buf[p.format..p.format + |format|] == format
    ensures FormatOf(buf, len, p) == format
  {
  }

  /**
   * What the parser finds if the address does hold a comma: the rest of the address behind it passes for
   * the tags, and the real tags for the first argument.
   */
  lemma {:induction false} CommaHidesTags(buf: seq<Byte>, len: nat, address: seq<Byte>, format: seq<Byte>)
    requires |Head(address, format)| <= len <= |buf| && Head(address, format) <= buf
    requires Text(address) && COMMA in address
    ensures var c, p := Seek(address, COMMA, 0, |address|), ParseOf(buf, len);
            && c < |address| && p == Parsed(c + 1, |StrBytes(address)|)
            && FormatOf(buf, len, p) == address[c + 1..]
  {
    hide *;
    CommaIn(address);
    HeadLayout(buf, address, format);
    SeeksBehindComma(buf, len, address, Seek(address, COMMA, 0, |address|));
    AddressOwnTail(buf, len, address, Seek(address, COMMA, 0, |address|));
  }

  lemma {:induction false} CommaIn(address: seq<Byte>)
    requires COMMA in address
    ensures Seek(address, COMMA, 0, |address|) < |address|
  {
    var k :| 0 <= k < |address| && address[k] == COMMA;
    assert Seek(address, COMMA, 0, |address|) <= k;
  }

  lemma {:induction false} SeeksBehindComma(buf: seq<Byte>, len: nat, address: seq<Byte>, c: nat)
    requires |address| < len <= |buf| && c < |address| && Text(address)
    requires c == Seek(address, COMMA, 0, |address|)
    requires (forall k :: 0 <= k < |address| ==> buf[k] == address[k]) && buf[|address|] == 0
    ensures Seek(buf, COMMA, 0, len) == c
    ensures Seek(buf, 0, c, len) == Seek(buf, 0, c + 1, len) == |address|
    ensures buf[c + 1..|address|] == address[c + 1..]
  {
    assert forall k :: 0 <= k < |address| ==> address[k] in address;
    SeekFinds(buf, COMMA, 0, len, c);
    SeekFinds(buf, 0, c, len, |address|);
    SeekFinds(buf, 0, c + 1, len, |address|);
  }

  lemma {:induction false} AddressOwnTail(buf: seq<Byte>, len: nat, address: seq<Byte>, c: nat)
    requires |address| < len <= |buf| && c < |address|
    requires Seek(buf, COMMA, 0, len) == c
    requires Seek(buf, 0, c, len) == Seek(buf, 0, c + 1, len) == |address|
    ensures var p := ParseOf(buf, len);
            p == Parsed(c + 1, |StrBytes(address)|) && FormatOf(buf, len, p) == buf[c + 1..|address|]
  {
    SizeByMask(|address|);
    hide Seek, Mask4, StrSize;
  }

  /** The address "/a,b" with the tag i: the tags read are "b", and i never is. */
  lemma {:induction false} CommaExample(v: S32)
    ensures var address: seq<Byte> := ['/' as int, 'a' as int, COMMA, 'b' as int];
            var buf := Wire(address, ['i' as int], [Int(v)]);
            var p := ParseOf(buf, |buf|);
            p.Parsed? && p.format <= |buf| && FormatOf(buf, |buf|, p) == ['b' as int]
  {
    var address: seq<Byte> := ['/' as int, 'a' as int, COMMA, 'b' as int];
    var buf := Wire(address, ['i' as int], [Int(v)]);
    CommaHidesTags(buf, |buf|, address, ['i' as int]);
    hide ParseOf, FormatOf, ArgsBytes, StrBytes;
    SeekFinds(address, COMMA, 0, 4, 2);
  }

  /** A 64-bit argument that reads the same backwards, or any other argument. */
  predicate Symmetric(a: Arg) {
    && (a.Double? ==> ToLE(a.pattern, 8) == ToBE(a.pattern, 8))
    && (a.Long? ==> ToLE(a.w, 8) == ToBE(a.w, 8))
  }

  /** The arguments come back unchanged exactly when every 64-bit one reads the same backwards. */
  lemma {:induction false} EchoesFaithful(args: seq<Arg>)
    ensures Echoes(args) == args <==> forall k :: 0 <= k < |args| ==> Symmetric(args[k])
  {
    forall k | 0 <= k < |args| ensures Echo(args[k]) == args[k] <==> Symmetric(args[k]) {
      EchoFaithful(args[k]);
    }
    hide Symmetric, Echo;
    if Echoes(args) == args {
      assert forall k :: 0 <= k < |args| ==> Echoes(args)[k] == Echo(args[k]);
    } else {
      var k :| 0 <= k < |args| && Echoes(args)[k] != args[k];
    }
  }

  /** The 64-bit integer 1 is not read back as 1. */
  lemma {:induction false} LongOneIsNotEchoed()
    ensures ArgBytes(Long(1)) == [1, 0, 0, 0, 0, 0, 0, 0]
    ensures Echo(Long(1)) == Long(0x100_0000_0000_0000)
  {
    ZeroLE(7);
    assert ToLE(1, 8) == [1] + ToLE(0, 7);
    assert [1] + Zeros(7) == [1, 0, 0, 0, 0, 0, 0, 0];
    OneAhead(7);
    Pow256Values();
    EchoLong(1);
    hide ToLE, Zeros, FromBE, Pow256;
  }

  lemma {:induction false} EchoLong(w: U64)
    ensures Echo(Long(w)) == Long(BigWide(ToLE(w, 8)))
  {
    hide ToLE, BigWide;
  }

  lemma {:induction false} OneAhead(n: nat)
    ensures FromBE([1] + Zeros(n)) == Pow256(n)
  {
    var s := [1] + Zeros(n);
    if n == 0 {
      assert s == [1] && s[..0] == [];
    } else {
      OneAhead(n - 1);
      assert s[..n] == [1] + Zeros(n - 1);
    }
  }

  // ---- A message of the OSC 1.0 specification examples

  lemma {:induction false} FiveArgs(a: Arg, b: Arg, c: Arg, d: Arg, e: Arg)
    ensures ArgsBytes([a, b, c, d, e]) == ArgBytes(a) + ArgBytes(b) + ArgBytes(c) + ArgBytes(d) + ArgBytes(e)
  {
    assert ArgsBytes([]) == [];
    hide *;
    ArgsSnoc([], a, [a]);
    ArgsSnoc([a], b, [a, b]);
    ArgsSnoc([a, b], c, [a, b, c]);
    ArgsSnoc([a, b, c], d, [a, b, c, d]);
    ArgsSnoc([a, b, c, d], e, [a, b, c, d, e]);
    assert [] + ArgBytes(a) == ArgBytes(a);
  }

  lemma {:induction false} ArgsSnoc(args: seq<Arg>, a: Arg, all: seq<Arg>)
    requires all == args + [a]
    ensures ArgsBytes(all) == ArgsBytes(args) + ArgBytes(a)
  {
    assert all[..|args|] == args;
  }

  lemma {:induction false} Padded(s: seq<Byte>, n: nat, r: seq<Byte>)
    requires r == s + seq(n, k => 0) && 1 <= n <= 4 && |r| % 4 == 0
    ensures StrBytes(s) == r
  {
    SizeByMask(|s|);
    assert StrSize(|s|) == |r|;
    assert Zeros(n) == seq(n, k => 0);
  }

  /**
   * The second message of the OSC 1.0 specification examples: the address "/foo" with the tags iisff and the
   * arguments 1000, -1, "hello", 1.234 and 5.678.
   */
  lemma {:induction false} SpecificationExample()
    ensures Wire(Ascii("/foo"), Ascii("iisff"),
                 [Int(1000), Int(-1), Str(Ascii("hello")), Float(0x3F9D_F3B6), Float(0x40B5_B22D)])
            == [0x2F, 0x66, 0x6F, 0x6F, 0, 0, 0, 0, 0x2C, 0x69, 0x69, 0x73, 0x66, 0x66, 0, 0]
               + ([0, 0, 3, 0xE8] + [0xFF, 0xFF, 0xFF, 0xFF] + [0x68, 0x65, 0x6C, 0x6C, 0x6F, 0, 0, 0])
               + ([0x3F, 0x9D, 0xF3, 0xB6] + [0x40, 0xB5, 0xB2, 0x2D])
  {
    hide *;
    ExampleHead();
    ExampleInts();
    ExampleFloats();
    ExampleString();
    var i1, i2, s, f1, f2 := Int(1000), Int(-1), Str(Ascii("hello")), Float(0x3F9D_F3B6), Float(0x40B5_B22D);
    FiveArgs(i1, i2, s, f1, f2);
    WireParts(Ascii("/foo"), Ascii("iisff"), [i1, i2, s, f1, f2]);
    Regrouped(Head(Ascii("/foo"), Ascii("iisff")), ArgBytes(i1), ArgBytes(i2), ArgBytes(s), ArgBytes(f1), ArgBytes(f2));
  }

  lemma {:induction false} Regrouped(
      h: seq<Byte>, a: seq<Byte>, b: seq<Byte>, c: seq<Byte>, d: seq<Byte>, e: seq<Byte>)
    ensures h + (a + b + c + d + e) == h + (a + b + c) + (d + e)
  {
  }

  lemma {:induction false} WireParts(address: seq<Byte>, format: seq<Byte>, args: seq<Arg>)
    ensures Wire(address, format, args) == Head(address, format) + ArgsBytes(args)
  {
  }

  lemma {:induction false} ExampleHead()
    ensures Head(Ascii("/foo"), Ascii("iisff"))
            == [0x2F, 0x66, 0x6F, 0x6F, 0, 0, 0, 0, 0x2C, 0x69, 0x69, 0x73, 0x66, 0x66, 0, 0]
  {
    assert Ascii("/foo") == [0x2F, 0x66, 0x6F, 0x6F];
    assert [COMMA] + Ascii("iisff") == [0x2C, 0x69, 0x69, 0x73, 0x66, 0x66];
    Padded([0x2F, 0x66, 0x6F, 0x6F], 4, [0x2F, 0x66, 0x6F, 0x6F, 0, 0, 0, 0]);
    Padded([0x2C, 0x69, 0x69, 0x73, 0x66, 0x66], 2, [0x2C, 0x69, 0x69, 0x73, 0x66, 0x66, 0, 0]);
    hide StrBytes, Ascii;
  }

  lemma {:induction false} ExampleInts()
    ensures ArgBytes(Int(1000)) == [0, 0, 3, 0xE8] && ArgBytes(Int(-1)) == [0xFF, 0xFF, 0xFF, 0xFF]
  {
    WordFrom(Int(1000), 0, 0, 3, 0xE8);
    WordFrom(Int(-1), 0xFF, 0xFF, 0xFF, 0xFF);
  }

  lemma {:induction false} ExampleFloats()
    ensures ArgBytes(Float(0x3F9D_F3B6)) == [0x3F, 0x9D, 0xF3, 0xB6]
    ensures ArgBytes(Float(0x40B5_B22D)) == [0x40, 0xB5, 0xB2, 0x2D]
  {
    WordFrom(Float(0x3F9D_F3B6), 0x3F, 0x9D, 0xF3, 0xB6);
    WordFrom(Float(0x40B5_B22D), 0x40, 0xB5, 0xB2, 0x2D);
  }

  /** A 32-bit argument by its four bytes. */
  lemma {:induction false} WordFrom(arg: Arg, a: Byte, b: Byte, c: Byte, d: Byte)
    requires arg.Int? || arg.Float?
    requires var n := if arg.Float? then arg.bits else if arg.v < 0 then arg.v + 0x1_0000_0000 else arg.v;
             n == Scaled(a, 0x100_0000) + Scaled(b, 0x1_0000) + Scaled(c, 0x100) + d
    ensures ArgBytes(arg) == [a, b, c, d]
  {
    var n := if arg.Float? then arg.bits else Pattern32(arg.v);
    WordBytes(arg);
    FourDigits(n, a, b, c, d);
    hide ArgBytes, Scaled;
  }

  function Scaled(b: int, scale: int): int {
    b * scale
  }

  lemma {:induction false} FourDigits(n: U32, a: Byte, b: Byte, c: Byte, d: Byte)
    requires n == Scaled(a, 0x100_0000) + Scaled(b, 0x1_0000) + Scaled(c, 0x100) + d
    ensures n / 0x100_0000 == a && n / 0x1_0000 % 256 == b && n / 0x100 % 256 == c && n % 256 == d
  {
    assert n / 0x100 == Scaled(a, 0x1_0000) + Scaled(b, 0x100) + c;
    assert n / 0x1_0000 == Scaled(a, 0x100) + b;
  }

  lemma {:induction false} ExampleString()
    ensures ArgBytes(Str(Ascii("hello"))) == [0x68, 0x65, 0x6C, 0x6C, 0x6F, 0, 0, 0]
  {
    assert Ascii("hello") == [0x68, 0x65, 0x6C, 0x6C, 0x6F];
    Padded([0x68, 0x65, 0x6C, 0x6C, 0x6F], 3, [0x68, 0x65, 0x6C, 0x6C, 0x6F, 0, 0, 0]);
    hide StrBytes, Ascii;
  }
}
