/** The OSC writer and reader as the code runs them, over one byte buffer and a moving position. */
module TinyOsc {
  import opened Bytes
  import opened ByteOrder
  import opened Osc

  // ---- The buffer, cleared and then filled from the front

  /** The first cap bytes of w followed by zeros. */
  function Fill(w: seq<Byte>, cap: nat): (r: seq<Byte>)
    ensures |r| == cap
  {
    if |w| <= cap then w + Zeros(cap - |w|) else w[..cap]
  }

  /** Storing x right after w, and counting some of the zeros behind it as padding. */
  lemma {:induction false} FillAppend(w: seq<Byte>, x: seq<Byte>, pad: nat, cap: nat)
    requires |w| + |x| <= cap
    ensures Fill(w, cap)[..|w|] + x + Fill(w, cap)[|w| + |x|..] == Fill(w + x + Zeros(pad), cap)
  {
  }

  method Store(buffer: array<Byte>, ghost w: seq<Byte>, at: nat, x: seq<Byte>, ghost pad: nat)
    requires at == |w| && at + |x| <= buffer.Length && buffer[..] == Fill(w, buffer.Length)
    modifies buffer
    ensures buffer[..] == Fill(w + x + Zeros(pad), buffer.Length)
  {
    FillAppend(w, x, pad, buffer.Length);
    assert buffer[..][..at] == buffer[..at] && buffer[..][at + |x|..] == buffer[at + |x|..];
    PutBytes(buffer, at, x);
  }

  // ---- The writer

  /**
   * The writer's result: a length, or one of the codes it returns as an unsigned -1 to -4. Stray means that
   * it stored the comma after the address outside the buffer before it went on to return -2.
   */
  datatype Result = Written(n: nat) | Failed(code: int) | Stray(at: nat)

  const MAX_CAPACITY := 0x7FFF_FFF0

  /** The head, address and type tags with their terminators, ends inside the buffer. */
  predicate HeadFits(address: seq<Byte>, format: seq<Byte>, cap: nat) {
    StrSize(|address|) + 1 + |format| < cap
  }

  /** Argument k can be written where it starts. */
  predicate ArgFits(address: seq<Byte>, format: seq<Byte>, args: seq<Arg>, k: nat, cap: nat)
    requires k < |args|
  {
    Offset(address, format, args, k) + Extent(args[k]) <= cap
  }

  /** Argument k is of a known tag and, if it has bytes at all, fits. */
  predicate Passes(address: seq<Byte>, format: seq<Byte>, args: seq<Arg>, k: nat, cap: nat)
    requires k < |args| == |format|
  {
    Known(format[k]) && (args[k].Flag? || ArgFits(address, format, args, k, cap))
  }

  /** The first k arguments can all be written. */
  predicate FitUpTo(address: seq<Byte>, format: seq<Byte>, args: seq<Arg>, k: nat, cap: nat)
    requires k <= |args| == |format|
  {
    forall j :: 0 <= j < k ==> Passes(address, format, args, j, cap)
  }

  /** The first argument that cannot be written is one of a known tag. */
  predicate RunsOut(address: seq<Byte>, format: seq<Byte>, args: seq<Arg>, cap: nat)
    requires |args| == |format|
  {
    exists k :: 0 <= k < |args| && FitUpTo(address, format, args, k, cap)
                && Known(format[k]) && !Passes(address, format, args, k, cap)
  }

  /** The first argument that cannot be written is one of an unknown tag. */
  predicate MeetsUnknown(address: seq<Byte>, format: seq<Byte>, args: seq<Arg>, cap: nat)
    requires |args| == |format|
  {
    exists k :: 0 <= k < |args| && FitUpTo(address, format, args, k, cap) && !Known(format[k])
  }

  /** Only letters other than the ten known ones can make the writer return -4, and the first of them does, if what precedes it fits. */
  lemma {:induction false} UnknownTags(address: seq<Byte>, format: seq<Byte>, args: seq<Arg>, cap: nat)
    requires |args| == |format|
    ensures MeetsUnknown(address, format, args, cap) <==>
            exists k :: 0 <= k < |args| && FitUpTo(address, format, args, k, cap)
                        && format[k] !in Ascii("bfdihsTFNI")
    ensures AllKnown(format) <==> forall k :: 0 <= k < |format| ==> format[k] in Ascii("bfdihsTFNI")
  {
    forall k | 0 <= k < |format| ensures Known(format[k]) <==> format[k] in Ascii("bfdihsTFNI") {
      KnownTags(format[k]);
    }
    hide FitUpTo, Known, Ascii;
  }

  /** The writer's preconditions: C strings, and arguments to match the tags. */
  predicate Writable(address: seq<Byte>, format: seq<Byte>, args: seq<Arg>, cap: nat) {
    && Text(address) && Text(format) && WellTyped(format, args)
    && cap <= MAX_CAPACITY
  }

  /** The address passes the writer's check, but its padded size leaves no room for the comma. */
  predicate CommaStrays(address: seq<Byte>, cap: nat) {
    |address| < cap <= StrSize(|address|)
  }

  /**
   * The stray store is at most three bytes outside. Where the capacity is a multiple of four, it happens to
   * exactly the addresses with fewer than five bytes to spare; with five it never happens.
   */
  lemma {:induction false} StrayCommas(address: seq<Byte>, cap: nat)
    requires |address| < cap
    ensures CommaStrays(address, cap) ==> StrSize(|address|) <= cap + 3 && cap <= |address| + 4
    ensures cap % 4 == 0 ==> (CommaStrays(address, cap) <==> cap <= |address| + 4)
  {
    SizeByMask(|address|);
  }

  /** A three-letter address in a buffer of four bytes. */
  lemma {:induction false} StrayCommaExample()
    ensures CommaStrays(['/' as int, 'a' as int, 'b' as int], 4)
  {
  }

  lemma {:induction false} Assoc(h: seq<Byte>, w: seq<Byte>, x: seq<Byte>)
    ensures h + w + x == h + (w + x) && |h + w + x| == |h| + |w + x| && |h + w| == |h| + |w|
  {
  }

  /** Writing argument k takes the message from its k-th offset to the next. */
  lemma {:induction false} ArgStep(address: seq<Byte>, format: seq<Byte>, args: seq<Arg>, k: nat)
    requires k < |args|
    ensures Offset(address, format, args, k) % 4 == 0
    ensures var h, w := Head(address, format), ArgsBytes(args[..k]);
            && Offset(address, format, args, k) == |h + w|
            && Offset(address, format, args, k + 1) == |h + w + ArgBytes(args[k])|
            && h + w + ArgBytes(args[k]) == h + ArgsBytes(args[..k + 1])
  {
    hide Head, ArgBytes, ArgsBytes, Wire;
    Aligned(address, format, args, k);
    ArgsStep(args, k);
    Assoc(Head(address, format), ArgsBytes(args[..k]), ArgBytes(args[k]));
  }

  /** The first argument that does not pass decides between the two failures. */
  lemma {:induction false} StopsAt(address: seq<Byte>, format: seq<Byte>, args: seq<Arg>, k: nat, cap: nat)
    requires k <= |args| == |format| && FitUpTo(address, format, args, k, cap)
    requires k < |args| ==> !Passes(address, format, args, k, cap)
    ensures FitUpTo(address, format, args, |args|, cap) <==> k == |args|
    ensures RunsOut(address, format, args, cap) <==> k < |args| && Known(format[k])
    ensures MeetsUnknown(address, format, args, cap) <==> k < |args| && !Known(format[k])
  {
    assert forall j :: 0 <= j < |args| && !Known(format[j]) ==> !Passes(address, format, args, j, cap);
    hide Passes, Known;
  }

  lemma {:induction false} HeadPieces(address: seq<Byte>, format: seq<Byte>)
    ensures var a, pad := StrBytes(address), StrSize(1 + |format|) - 1 - |format|;
            && address + Zeros(StrSize(|address|) - |address|) == a
            && a + [COMMA] + Zeros(0) == a + [COMMA]
            && a + [COMMA] + format + Zeros(pad) == Head(address, format)
    ensures Mask4(|address| + 4) == StrSize(|address|) == |StrBytes(address)|
    ensures Mask4(StrSize(|address|) + 1 + 4 + |format|) == |Head(address, format)|
  {
    SizeByMask(|address|);
    TagEnd(|address|, |format|);
    assert format + Zeros(StrSize(1 + |format|) - 1 - |format|) == StrBytes([COMMA] + format)[1..];
  }

  /** The clearing, the address and the type tags; the result is Failed, or the position after them. */
  method WriteHead(buffer: array<Byte>, address: seq<Byte>, format: seq<Byte>) returns (i: U32, r: Result)
    requires |address| < 0x8000_0000 && |format| < 0x8000_0000 && buffer.Length <= MAX_CAPACITY
    modifies buffer
    ensures r == if |address| >= buffer.Length then Failed(-1)
                 else if CommaStrays(address, buffer.Length) then Stray(StrSize(|address|))
                 else if !HeadFits(address, format, buffer.Length) then Failed(-2)
                 else Written(0)
    ensures r.Written? ==>
              i == |Head(address, format)| <= buffer.Length + 3
              && buffer[..] == Fill(Head(address, format), buffer.Length)
  {
    forall k | 0 <= k < buffer.Length {
      buffer[k] := 0;
    }
    assert buffer[..] == Fill([], buffer.Length);
    i, r := 0, Written(0);
    if |address| >= buffer.Length {
      return 0, Failed(-1);
    }
    HeadPieces(address, format);
    hide Fill, StrBytes, Head, Mask4;
    Store(buffer, [], 0, address, StrSize(|address|) - |address|);
    assert [] + address == address;
    i := Mask4(|address| + 4);
    if i >= buffer.Length {
      return i, Stray(i);
    }
    Store(buffer, StrBytes(address), i, [COMMA], 0);
    i := i + 1;
    if i + |format| >= buffer.Length {
      return 0, Failed(-2);
    }
    Store(buffer, StrBytes(address) + [COMMA], i, format, StrSize(1 + |format|) - 1 - |format|);
    i := Mask4(i + 4 + |format|);
  }

  /**
   * tosc_vwrite on a cleared buffer. It fails for exactly the reasons the codes stand for; otherwise the
   * buffer holds the message, zeros elsewhere, and the result is the length of the message.
   */
  method Write(buffer: array<Byte>, address: seq<Byte>, format: seq<Byte>, args: seq<Arg>) returns (r: Result)
    requires Writable(address, format, args, buffer.Length)
    modifies buffer
    ensures r == Failed(-1) <==> |address| >= buffer.Length
    ensures r.Stray? <==> CommaStrays(address, buffer.Length)
    ensures r.Stray? ==> r.at == StrSize(|address|)
    ensures r == Failed(-2) <==>
              |address| < buffer.Length && !CommaStrays(address, buffer.Length)
              && !HeadFits(address, format, buffer.Length)
    ensures r == Failed(-3) <==>
              HeadFits(address, format, buffer.Length) && RunsOut(address, format, args, buffer.Length)
    ensures r == Failed(-4) <==>
              HeadFits(address, format, buffer.Length) && MeetsUnknown(address, format, args, buffer.Length)
    ensures r.Written? <==>
              HeadFits(address, format, buffer.Length) && FitUpTo(address, format, args, |args|, buffer.Length)
    ensures r.Written? ==>
              r.n == |Wire(address, format, args)| && buffer[..] == Fill(Wire(address, format, args), buffer.Length)
  {
    var i: U32;
    i, r := WriteHead(buffer, address, format);
    if !r.Written? {
      return;
    }
    Boundaries(address, format, args, buffer.Length);
    assert Head(address, format) + ArgsBytes(args[..0]) == Head(address, format);
    r := WriteArgs(buffer, address, format, args, i);
  }

  /** The loop over the type tags. */
  method WriteArgs(buffer: array<Byte>, address: seq<Byte>, format: seq<Byte>, args: seq<Arg>, start: U32)
    returns (r: Result)
    requires Writable(address, format, args, buffer.Length) && |args| == |format|
    requires start == Offset(address, format, args, 0) <= buffer.Length + 3
    requires buffer[..] == Fill(Head(address, format) + ArgsBytes(args[..0]), buffer.Length)
    modifies buffer
    ensures r == Failed(-3) <==> RunsOut(address, format, args, buffer.Length)
    ensures r == Failed(-4) <==> MeetsUnknown(address, format, args, buffer.Length)
    ensures r.Written? <==> FitUpTo(address, format, args, |args|, buffer.Length)
    ensures r.Failed? ==> r.code == -3 || r.code == -4
    ensures !r.Stray?
    ensures r.Written? ==>
              r.n == |Wire(address, format, args)| && buffer[..] == Fill(Wire(address, format, args), buffer.Length)
  {
    hide *;
    ghost var cap := buffer.Length;
    Boundaries(address, format, args, cap);
    var k, i := 0, start;
    while k < |format|
      invariant 0 <= k <= |format|
      invariant i == Offset(address, format, args, k) <= cap + 3
      invariant FitUpTo(address, format, args, k, cap)
      invariant buffer[..] == Fill(Head(address, format) + ArgsBytes(args[..k]), cap)
    {
      ArgBounds(address, format, args, k, cap);
      if !Known(format[k]) {
        StopsAt(address, format, args, k, cap);
        return Failed(-4);
      }
      ArgStep(address, format, args, k);
      var next, ok := WriteArg(buffer, Head(address, format) + ArgsBytes(args[..k]), args[k], i);
      if !ok {
        StopsAt(address, format, args, k, cap);
        return Failed(-3);
      }
      FitsStep(address, format, args, k, cap);
      i := next;
      k := k + 1;
    }
    StopsAt(address, format, args, k, cap);
    r := Written(i);
  }

  /** Where the loop over the arguments starts and ends. */
  lemma {:induction false} Boundaries(address: seq<Byte>, format: seq<Byte>, args: seq<Arg>, cap: nat)
    requires |args| == |format|
    ensures FitUpTo(address, format, args, 0, cap) && args[..0] == []
    ensures Offset(address, format, args, 0) == |Head(address, format)|
    ensures Offset(address, format, args, |args|) == |Wire(address, format, args)|
    ensures Head(address, format) + ArgsBytes(args[..|args|]) == Wire(address, format, args)
  {
    hide Head;
    assert args[..|args|] == args && args[..0] == [];
  }

  lemma {:induction false} ArgBounds(address: seq<Byte>, format: seq<Byte>, args: seq<Arg>, k: nat, cap: nat)
    requires Writable(address, format, args, cap) && k < |args| == |format|
    ensures !Known(format[k]) ==> !Passes(address, format, args, k, cap)
    ensures Known(format[k]) ==> (args[k].Blob? ==> |args[k].data| < 0x8000_0000) && (args[k].Str? ==> |args[k].s| < 0x8000_0000)
    ensures Known(format[k]) ==>
              (Passes(address, format, args, k, cap)
               <==> args[k].Flag? || Offset(address, format, args, k) + Extent(args[k]) <= cap)
    ensures cap <= MAX_CAPACITY
  {
    hide Offset, Extent;
  }

  lemma {:induction false} BlobParts(w: seq<Byte>, data: seq<Byte>, i: nat)
    requires i == |w| && i % 4 == 0
    ensures w + ToBE(|data|, 4) + Zeros(0) == w + ToBE(|data|, 4)
    ensures w + ToBE(|data|, 4) + data + Zeros(Round4(|data|) - |data|) == w + ArgBytes(Blob(data))
    ensures Mask4(i + 4 + 3 + |data|) == |w + ArgBytes(Blob(data))|
  {
    SizeByMask(|data|);
    MaskShift(i + 4, 3 + |data|);
    BlobBytes(data);
    hide ArgBytes, Mask4, Round4, StrSize, ToBE, Zeros;
    Behind(w, ToBE(|data|, 4), data, Zeros(Round4(|data|) - |data|));
    assert w + ToBE(|data|, 4) + Zeros(0) == w + ToBE(|data|, 4);
  }

  lemma {:induction false} BlobBytes(data: seq<Byte>)
    ensures ArgBytes(Blob(data)) == ToBE(|data|, 4) + (data + Zeros(Round4(|data|) - |data|))
  {
    hide ToBE, Zeros, Round4;
  }

  lemma {:induction false} Behind(w: seq<Byte>, a: seq<Byte>, b: seq<Byte>, c: seq<Byte>)
    ensures w + a + b + c == w + (a + (b + c))
  {
  }

  lemma {:induction false} StrParts(w: seq<Byte>, s: seq<Byte>, i: nat)
    requires i == |w| && i % 4 == 0
    ensures w + s + Zeros(StrSize(|s|) - |s|) == w + StrBytes(s)
    ensures Mask4(i + 4 + |s|) == |w + StrBytes(s)|
  {
    SizeByMask(|s|);
    MaskShift(i, 4 + |s|);
    assert s + Zeros(StrSize(|s|) - |s|) == StrBytes(s);
  }

  /** One argument at its place i, after the bytes w. */
  method WriteArg(buffer: array<Byte>, ghost w: seq<Byte>, a: Arg, i: U32) returns (next: U32, ok: bool)
    requires buffer.Length <= MAX_CAPACITY && i == |w| <= buffer.Length + 3 && i % 4 == 0
    requires (a.Blob? ==> |a.data| < 0x8000_0000) && (a.Str? ==> |a.s| < 0x8000_0000)
    requires buffer[..] == Fill(w, buffer.Length)
    modifies buffer
    ensures ok <==> a.Flag? || i + Extent(a) <= buffer.Length
    ensures ok ==> next == |w + ArgBytes(a)| <= buffer.Length + 3
    ensures ok ==> buffer[..] == Fill(w + ArgBytes(a), buffer.Length)
  {
    hide Fill, PaddedTo, StrSize, Round4, ToBE;
    ghost var cap := buffer.Length;
    next, ok := i, true;
    match a {
      case Blob(data) =>
        var n: U32 := |data|;
        if i + 4 + n > buffer.Length {
          return i, false;
        }
        BlobParts(w, data, i);
        hide ArgBytes, Mask4;
        Store(buffer, w, i, ToBE(n, 4), 0);
        Store(buffer, w + ToBE(n, 4), i + 4, data, Round4(n) - n);
        next := Mask4(i + 4 + 3 + n);
      case Str(s) =>
        if i + |s| >= buffer.Length {
          return i, false;
        }
        StrParts(w, s, i);
        hide StrBytes, Mask4;
        Store(buffer, w, i, s, StrSize(|s|) - |s|);
        next := Mask4(i + 4 + |s|);
      case Flag =>
        assert w + [] == w;
      case Float(bits) =>
        if i + 4 > buffer.Length {
          return i, false;
        }
        next := StoreWord(buffer, w, i, ToBE(bits, 4));
      case Int(v) =>
        if i + 4 > buffer.Length {
          return i, false;
        }
        next := StoreWord(buffer, w, i, ToBE(Pattern32(v), 4));
      case Double(pattern) =>
        if i + 8 > buffer.Length {
          return i, false;
        }
        var n := Htonll(pattern);
        next := StoreWord(buffer, w, i, ToLE(n, 8));
      case Long(k) =>
        if i + 8 > buffer.Length {
          return i, false;
        }
        var n := Htonll(k);
        next := StoreWord(buffer, w, i, ToLE(n, 8));
    }
  }

  /** A word as it lies in memory, with no padding. */
  method StoreWord(buffer: array<Byte>, ghost w: seq<Byte>, i: U32, x: seq<Byte>) returns (next: U32)
    requires i == |w| && i + |x| <= buffer.Length <= MAX_CAPACITY && buffer[..] == Fill(w, buffer.Length)
    modifies buffer
    ensures next == |w + x| && buffer[..] == Fill(w + x, buffer.Length)
  {
    Store(buffer, w, i, x, 0);
    assert w + x + Zeros(0) == w + x;
    next := i + |x|;
  }

  // ---- Exact capacity

  /** Where the last byte that is not padding ends, of the head and the first k arguments. */
  function End(address: seq<Byte>, format: seq<Byte>, args: seq<Arg>, k: nat): nat
    requires k <= |args|
  {
    if k == 0 then StrSize(|address|) + 2 + |format|
    else if args[k - 1].Flag? then End(address, format, args, k - 1)
    else Offset(address, format, args, k - 1) + Extent(args[k - 1])
  }

  lemma {:induction false} EndNearOffset(address: seq<Byte>, format: seq<Byte>, args: seq<Arg>, k: nat)
    requires k <= |args|
    ensures End(address, format, args, k) <= Offset(address, format, args, k) < End(address, format, args, k) + 4
  {
    if k == 0 {
      assert args[..0] == [];
    } else {
      hide Offset, Extent;
      OffsetStep(address, format, args, k - 1);
      if args[k - 1].Flag? {
        EndNearOffset(address, format, args, k - 1);
      }
    }
  }

  lemma {:induction false} OffsetStep(address: seq<Byte>, format: seq<Byte>, args: seq<Arg>, k: nat)
    requires k < |args|
    ensures Offset(address, format, args, k + 1) == Offset(address, format, args, k) + |ArgBytes(args[k])|
  {
    hide Head, ArgBytes, ArgsBytes;
    ArgsStep(args, k);
  }

  lemma {:induction false} FitsByEnd(address: seq<Byte>, format: seq<Byte>, args: seq<Arg>, k: nat, cap: nat)
    requires k <= |args| == |format| && AllKnown(format)
    ensures HeadFits(address, format, cap) && FitUpTo(address, format, args, k, cap)
            <==> End(address, format, args, k) <= cap
  {
    hide *;
    if k == 0 {
      EndStart(address, format, args, cap);
    } else {
      FitsByEnd(address, format, args, k - 1, cap);
      EndStep(address, format, args, k - 1, cap);
      FitsStep(address, format, args, k - 1, cap);
    }
  }

  lemma {:induction false} EndStart(address: seq<Byte>, format: seq<Byte>, args: seq<Arg>, cap: nat)
    requires |args| == |format|
    ensures HeadFits(address, format, cap) <==> End(address, format, args, 0) <= cap
    ensures FitUpTo(address, format, args, 0, cap)
  {
    hide StrSize;
  }

  lemma {:induction false} EndStep(address: seq<Byte>, format: seq<Byte>, args: seq<Arg>, k: nat, cap: nat)
    requires k < |args| == |format| && AllKnown(format)
    ensures End(address, format, args, k + 1) <= cap
            <==> End(address, format, args, k) <= cap && Passes(address, format, args, k, cap)
  {
    EndNearOffset(address, format, args, k);
    hide Known, Offset, Extent;
  }

  lemma {:induction false} FitsStep(address: seq<Byte>, format: seq<Byte>, args: seq<Arg>, k: nat, cap: nat)
    requires k < |args| == |format|
    ensures FitUpTo(address, format, args, k + 1, cap)
            <==> FitUpTo(address, format, args, k, cap) && Passes(address, format, args, k, cap)
  {
    hide Passes;
  }

  /**
   * Capacity, for a buffer of any size: with known tags writing succeeds exactly when every byte but trailing
   * padding fits. What is written is then the whole message exactly when its length is within the capacity,
   * as it always is for capacities that are multiples of four.
   */
  lemma {:induction false} CapacityExact(address: seq<Byte>, format: seq<Byte>, args: seq<Arg>, cap: nat)
    requires |args| == |format| && AllKnown(format)
    ensures HeadFits(address, format, cap) && FitUpTo(address, format, args, |args|, cap)
            <==> End(address, format, args, |args|) <= cap
    ensures var n, e := |Wire(address, format, args)|, End(address, format, args, |args|);
            && n % 4 == 0 && e <= n < e + 4 && (cap % 4 == 0 ==> (e <= cap <==> n <= cap))
            && (n <= cap <==> Carries(Fill(Wire(address, format, args), cap), address, format, args))
  {
    hide *;
    FitsByEnd(address, format, args, |args|, cap);
    EndNearOffset(address, format, args, |args|);
    Aligned(address, format, args, |args|);
    NextMultiple(End(address, format, args, |args|), |Wire(address, format, args)|, cap);
    CarriesWhole(address, format, args, cap);
  }

  lemma {:induction false} NextMultiple(e: nat, n: nat, cap: nat)
    requires n % 4 == 0 && e <= n < e + 4
    ensures cap % 4 == 0 ==> (e <= cap <==> n <= cap)
  {
  }

  lemma {:induction false} CarriesWhole(address: seq<Byte>, format: seq<Byte>, args: seq<Arg>, cap: nat)
    ensures |Wire(address, format, args)| <= cap
            <==> Carries(Fill(Wire(address, format, args), cap), address, format, args)
  {
  }

  /**
   * Unless the capacity is a multiple of four the reported length can exceed it: a one-character address
   * and the tag T make eight bytes, of which seven are enough.
   */
  lemma {:induction false} LengthCanExceedCapacity()
    ensures End(['a' as int], ['T' as int], [Flag], 1) <= 7 < |Wire(['a' as int], ['T' as int], [Flag])|
  {
    assert [Flag][..0] == [];
    assert ArgsBytes([Flag]) == ArgsBytes([]) + ArgBytes(Flag);
  }

  // ---- The reader

  /** A getter delivered a and left the marker at m. */
  predicate Yields(g: Got, a: Arg, m: int) {
    g.Got? && g.arg == a && g.next == m
  }

  class Message {
    var buffer: array<Byte>
    var len: nat
    var format: nat
    var marker: int

    constructor ()
    {
      buffer := new Byte[0];
      len, format, marker := 0, 0, 0;
    }

    /** tosc_parseMessage. */
    method Parse(buffer: array<Byte>, len: nat) returns (code: int)
      requires len <= buffer.Length
      modifies this
      ensures match ParseOf(buffer[..], len)
              case NoComma => code == -1 && this.buffer == old(this.buffer) && marker == old(marker)
              case Unterminated => code == -2 && this.buffer == old(this.buffer) && marker == old(marker)
              case Parsed(f, m) =>
                code == 0 && this.buffer == buffer && this.len == len && format == f && marker == m
    {
      var i := 0;
      while i < len && buffer[i] != COMMA
        invariant 0 <= i <= len && Seek(buffer[..], COMMA, 0, len) == Seek(buffer[..], COMMA, i, len)
      {
        i := i + 1;
      }
      if i == len {
        return -1;
      }
      format := i + 1;
      ghost var comma := i;
      while i < len && buffer[i] != 0
        invariant comma <= i <= len && Seek(buffer[..], 0, comma, len) == Seek(buffer[..], 0, i, len)
      {
        i := i + 1;
      }
      if i == len {
        return -2;
      }
      marker := Mask4(i + 4);
      this.buffer := buffer;
      this.len := len;
      code := 0;
    }

    /** A 32-bit big-endian load; the getters do not check the buffer's bounds, so their callers must. */
    method GetNextInt32() returns (v: S32)
      requires 0 <= marker && marker + 4 <= buffer.Length && len <= buffer.Length
      modifies this`marker
      ensures Yields(ReadArg(buffer[..], len, old(marker), 'i' as int), Int(v), marker)
    {
      assert buffer[marker..marker + 4] == buffer[..][marker..marker + 4];
      v := Signed32(BigWord(buffer[marker..marker + 4]));
      marker := marker + 4;
    }

    method GetNextFloat() returns (bits: U32)
      requires 0 <= marker && marker + 4 <= buffer.Length && len <= buffer.Length
      modifies this`marker
      ensures Yields(ReadArg(buffer[..], len, old(marker), 'f' as int), Float(bits), marker)
    {
      assert buffer[marker..marker + 4] == buffer[..][marker..marker + 4];
      bits := BigWord(buffer[marker..marker + 4]);
      marker := marker + 4;
    }

    /** A 64-bit load through ntohll; tag is h or d. */
    method GetNextWide(tag: Byte) returns (w: U64)
      requires 0 <= marker && marker + 8 <= buffer.Length && len <= buffer.Length
      requires tag == 'h' as int || tag == 'd' as int
      modifies this`marker
      ensures Yields(ReadArg(buffer[..], len, old(marker), tag), if tag == 'h' as int then Long(w) else Double(w), marker)
    {
      var s := buffer[marker..marker + 8];
      assert s == buffer[..][marker..marker + 8];
      SwapLoaded(s);
      w := Ntohll(LittleWide(s));
      marker := marker + 8;
    }

    /** Null, with the marker unmoved, when the string does not end inside the message. */
    method GetNextString() returns (s: seq<Byte>, ok: bool)
      requires 0 <= marker && len <= buffer.Length
      requires exists k :: marker <= k < buffer.Length && buffer[k] == 0
      modifies this`marker
      ensures if ok then Yields(ReadArg(buffer[..], len, old(marker), 's' as int), Str(s), marker)
              else ReadArg(buffer[..], len, old(marker), 's' as int) == Null && marker == old(marker)
    {
      var i := 0;
      while buffer[marker + i] != 0
        invariant 0 <= i && marker + i < buffer.Length
        invariant forall k :: marker <= k < marker + i ==> buffer[k] != 0
        decreases buffer.Length - i
      {
        i := i + 1;
      }
      if marker + i >= len {
        return [], false;
      }
      SeekFinds(buffer[..], 0, marker, len, marker + i);
      s, ok := buffer[marker..marker + i], true;
      assert s == buffer[..][marker..marker + i];
      marker := marker + Mask4(i + 4);
    }

    /**
     * The blob's place and length, or a null result with the marker unmoved. A length with its top bit set
     * passes the check as a negative number and is handed out as one.
     */
    method GetNextBlob() returns (at: int, n: int, ok: bool)
      requires 0 <= marker && marker + 4 <= buffer.Length && len <= buffer.Length
      modifies this`marker
      ensures n == if ok then Signed32(BigWord(buffer[..][old(marker)..old(marker) + 4])) else 0
      ensures ok <==> old(marker) + 4 + Signed32(BigWord(buffer[..][old(marker)..old(marker) + 4])) <= len
      ensures ok ==> at == old(marker) + 4
      ensures ok && n >= 0 ==>
                Yields(ReadArg(buffer[..], len, old(marker), 'b' as int), Blob(buffer[..][at..at + n]), marker)
      ensures !ok || n < 0 ==> ReadArg(buffer[..], len, old(marker), 'b' as int) == Null
      ensures !ok ==> marker == old(marker)
    {
      assert buffer[marker..marker + 4] == buffer[..][marker..marker + 4];
      var i: int := Signed32(BigWord(buffer[marker..marker + 4]));
      if marker + 4 + i <= len {
        at, n, ok := marker + 4, i, true;
        marker := marker + (i + 7) / 4 * 4;
      } else {
        at, n, ok := 0, 0, false;
      }
    }

    /** The loop of tosc_printMessage over a message whose arguments are all in bounds. */
    method ReadAll(tags: seq<Byte>) returns (args: seq<Arg>)
      requires 0 <= marker && len <= buffer.Length
      requires ReadArgs(buffer[..], len, marker, tags).AllGot?
      modifies this`marker
      ensures marker >= 0 && ReadArgs(buffer[..], len, old(marker), tags) == AllGot(args, marker)
    {
      ghost var start := marker;
      ghost var buf := buffer[..];
      args := [];
      var j := 0;
      assert tags[..0] == [] && tags[..|tags|] == tags;
      while j < |tags|
        invariant 0 <= j <= |tags| && 0 <= marker
        invariant ReadArgs(buf, len, start, tags[..j]) == AllGot(args, marker)
      {
        ReadNext(buf, len, start, tags, j);
        var a := GetNext(tags[j]);
        args := args + [a];
        j := j + 1;
      }
    }

    /** The getter for one tag. */
    method GetNext(tag: Byte) returns (a: Arg)
      requires 0 <= marker && len <= buffer.Length && ReadArg(buffer[..], len, marker, tag).Got?
      modifies this`marker
      ensures Yields(ReadArg(buffer[..], len, old(marker), tag), a, marker)
    {
      if tag == 'b' as int {
        var at, n, ok := GetNextBlob();
        a := Blob(buffer[..][at..at + n]);
      } else if tag == 'f' as int {
        var bits := GetNextFloat();
        a := Float(bits);
      } else if tag == 'd' as int || tag == 'h' as int {
        var w := GetNextWide(tag);
        a := if tag == 'h' as int then Long(w) else Double(w);
      } else if tag == 'i' as int {
        var v := GetNextInt32();
        a := Int(v);
      } else if tag == 's' as int {
        var s, ok := GetNextString();
        a := Str(s);
      } else {
        a := Flag;
      }
    }
  }

  lemma {:induction false} ReadNext(buf: seq<Byte>, len: nat, m: nat, tags: seq<Byte>, j: nat)
    requires len <= |buf| && j < |tags| && ReadArgs(buf, len, m, tags).AllGot?
    ensures ReadArgs(buf, len, m, tags[..j]).AllGot?
    ensures var g := ReadArgs(buf, len, m, tags[..j]); var x := ReadArg(buf, len, g.next, tags[j]);
            x.Got? && ReadArgs(buf, len, m, tags[..j + 1]) == AllGot(g.args + [x.arg], x.next)
    decreases |tags|
  {
    hide ReadArg;
    var n := |tags| - 1;
    if j == n {
      assert tags[..j + 1] == tags;
    } else {
      ReadNext(buf, len, m, tags[..n], j);
      assert tags[..n][..j] == tags[..j] && tags[..n][..j + 1] == tags[..j + 1];
    }
    assert tags[..j + 1][..j] == tags[..j];
  }
}
