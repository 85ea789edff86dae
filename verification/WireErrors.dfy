/**
 * What one corrupted byte on the wire does to a frame. A change of the stuffed bytes can merge or split
 * escape sequences, so this is more than the strength of the checksum over the unstuffed body.
 */
module WireErrors {
  import opened Bytes
  import opened Framing

  /** The bytes that are stuffed: length and payload. */
  function Body(p: seq<Byte>): (u: seq<Byte>)
    ensures |u| == |p| + 2
  {
    LengthBytes(|p|) + p
  }

  /** Where the stuffed form of body byte i starts on the wire. */
  function TokenStart(p: seq<Byte>, i: nat): nat
    requires i <= |Body(p)|
  {
    1 + |StuffAll(Body(p)[..i])|
  }

  /**
   * Body bytes that can turn into ESC unnoticed: a 0x3D right before an escaped SYNC or ESC, and the low
   * length byte 0x21 of a payload that starts with 0.
   */
  predicate Slips(p: seq<Byte>, i: nat)
    requires i < |Body(p)|
  {
    var u := Body(p);
    || (i >= 2 && i + 1 < |u| && u[i] == 0x3D && (u[i + 1] == SYNC || u[i + 1] == ESC))
    || (i == 1 && u[1] == 0x21 && p != [] && p[0] == 0)
  }

  function Tail(b: seq<Byte>, c: Byte): (w: seq<Byte>)
    ensures w != []
  {
    StuffAll(b) + [c]
  }

  // ---- Reading a changed frame

  lemma {:induction false} UnstuffConcat(a: seq<Byte>, w: seq<Byte>)
    requires !Unstuff(a).esc
    ensures Unstuff(a + w) == Scan(Unstuff(a).out + Unstuff(w).out, Unstuff(w).esc)
  {
    if w == [] {
      assert a + w == a;
    } else {
      var v, b := w[..|w| - 1], w[|w| - 1];
      UnstuffConcat(a, v);
      assert a + w == a + v + [b] && v + [b] == w;
      UnstuffSnoc(a + v, b);
      UnstuffSnoc(v, b);
    }
  }

  lemma {:induction false} Verdict(s: seq<Byte>)
    requires |s| >= FRAME_LEN_MIN && s[0] == SYNC
    ensures var m := Unstuff(s[1..]); Decode(s) != INCOMPLETE <==> !m.esc && ValidBody(m.out)
  {
    InSync(s);
    hide FirstSync, Decode, Unstuff, ValidBody;
  }

  lemma {:induction false} Cut(u: seq<Byte>, i: nat)
    requires i < |u|
    ensures u == u[..i] + [u[i]] + u[i + 1..]
    ensures StuffAll(u) == StuffAll(u[..i]) + Stuff(u[i]) + StuffAll(u[i + 1..])
  {
    StuffAllSnoc(u[..i], u[i]);
    StuffAllConcat(u[..i] + [u[i]], u[i + 1..]);
    assert u == u[..i] + [u[i]] + u[i + 1..];
  }

  lemma {:induction false} Replaced(a: seq<Byte>, t: seq<Byte>, z: seq<Byte>, j: nat, b: Byte)
    requires j < |t|
    ensures ([SYNC] + (a + t + z))[1 + |a| + j := b][1..] == a + (t[j := b] + z)
  {
  }

  /** Byte j of the stuffed form of body byte i is changed to b: what the decoder then reads. */
  function Misread(p: seq<Byte>, i: nat, j: nat, b: Byte): Scan
    requires i < |Body(p)| && j < |Stuff(Body(p)[i])|
  {
    Unstuff(Stuff(Body(p)[i])[j := b] + Tail(Body(p)[i + 1..], Checksum(p)))
  }

  lemma {:induction false} Changed(p: seq<Byte>, i: nat, j: nat, b: Byte)
    requires i < |Body(p)| && j < |Stuff(Body(p)[i])|
    ensures TokenStart(p, i) + j < |Encode(p)|
    ensures var m := Misread(p, i, j, b);
            Decode(Encode(p)[TokenStart(p, i) + j := b]) != INCOMPLETE
            <==> !m.esc && ValidBody(Body(p)[..i] + m.out)
  {
    hide Unstuff, StuffAll, Stuff, Decode, Checksum, ValidBody, LengthBytes, Body, Tail, Encode;
    var a, t, z := StuffAll(Body(p)[..i]), Stuff(Body(p)[i]), Tail(Body(p)[i + 1..], Checksum(p));
    Whole(p, i);
    UnstuffStuffAll(Body(p)[..i]);
    Replaced(a, t, z, j, b);
    UnstuffConcat(a, t[j := b] + z);
    Verdict(Encode(p)[1 + |a| + j := b]);
  }

  /** A frame, cut at the stuffed form of body byte i. */
  lemma {:induction false} Whole(p: seq<Byte>, i: nat)
    requires i < |Body(p)|
    ensures Encode(p) == [SYNC] + (StuffAll(Body(p)[..i]) + Stuff(Body(p)[i]) + Tail(Body(p)[i + 1..], Checksum(p)))
    ensures |Encode(p)| >= FRAME_LEN_MIN && |Stuff(Body(p)[i])| > 0
  {
    EncodeTail(p);
    Cut(Body(p), i);
    hide StuffAll, Checksum;
  }

  /** The rest of the frame, read on its own. */
  lemma {:induction false} ReadTail(b: seq<Byte>, c: Byte)
    ensures Unstuff(Tail(b, c)) == if c == ESC then Scan(b, true) else Scan(b + [c], false)
  {
    ScanThenRaw(b, c);
  }

  /** Reading on after one or two bytes that leave no escape pending. */
  lemma {:induction false} ReadOn(v: seq<Byte>, z: seq<Byte>)
    requires 1 <= |v| <= 2
    requires |v| == 1 ==> v[0] != ESC
    requires |v| == 2 && v[0] != ESC ==> v[1] != ESC
    ensures Unstuff(v + z) ==
            Scan((if |v| == 1 then [v[0]] else if v[0] == ESC then [Flip(v[1])] else v) + Unstuff(z).out, Unstuff(z).esc)
  {
    UnstuffSnoc([], v[0]);
    assert [] + [v[0]] == [v[0]];
    if |v| == 2 {
      UnstuffSnoc([v[0]], v[1]);
      assert [v[0]] + [v[1]] == v;
    } else {
      assert v == [v[0]];
    }
    UnstuffConcat(v, z);
  }

  // ---- A payload that fits a receive buffer

  /** Frames of this size have a high length byte that needs no escape. */
  predicate Small(p: seq<Byte>) {
    |p| <= 2044
  }

  lemma {:induction false} SmallLength(p: seq<Byte>)
    requires Small(p)
    ensures var u := Body(p);
            u[0] <= 7 && Word(u[0], u[1]) == |p| && u[2..] == p && !NeedsEscape(u[0])
    ensures ValidBody(Body(p) + [Checksum(p)])
  {
    LengthBytesValue(|p|);
    FramedBody(p);
    assert |p| / 256 < 8;
  }

  /** The same length bytes announce the same length. */
  lemma {:induction false} LengthKept(p: seq<Byte>, v: seq<Byte>)
    requires Small(p) && |v| >= 3 && v[0] == Body(p)[0] && v[1] == Body(p)[1] && |v| != |p| + 3
    ensures !ValidBody(v)
  {
    SmallLength(p);
  }

  // ---- The cases

  /** One body byte is read as another one. */
  lemma {:induction false} Substituted(p: seq<Byte>, i: nat, x: Byte)
    requires Small(p) && i < |Body(p)| && x != Body(p)[i]
    ensures !ValidBody(Body(p)[..i] + ([x] + (Body(p)[i + 1..] + [Checksum(p)])))
  {
    var u := Body(p) + [Checksum(p)];
    SmallLength(p);
    SingleByteError(u, i, x);
    assert Body(p)[..i] + ([x] + (Body(p)[i + 1..] + [Checksum(p)])) == u[i := x];
  }

  /** The first byte of a stuffed form becomes something other than ESC. */
  lemma {:induction false} PlainChange(p: seq<Byte>, i: nat, b: Byte)
    requires Small(p) && i < |Body(p)| && b != ESC && b != Stuff(Body(p)[i])[0]
    ensures TokenStart(p, i) < |Encode(p)|
    ensures Decode(Encode(p)[TokenStart(p, i) := b]) == INCOMPLETE
  {
    Stuffed(Body(p)[i]);
    Changed(p, i, 0, b);
    PlainMisread(p, i, b);
    hide *;
    if Checksum(p) != ESC {
      if NeedsEscape(Body(p)[i]) {
        EscapeSplit(p, i, b);
      } else {
        Substituted(p, i, b);
      }
    }
  }

  lemma {:induction false} PlainMisread(p: seq<Byte>, i: nat, b: Byte)
    requires i < |Body(p)| && b != ESC
    ensures |Stuff(Body(p)[i])| > 0
    ensures var m, x, c := Misread(p, i, 0, b), Body(p)[i], Checksum(p);
            && m.esc == (c == ESC)
            && (c != ESC ==> m.out == (if NeedsEscape(x) then [b, Flip(x)] else [b]) + (Body(p)[i + 1..] + [c]))
  {
    var x, z := Body(p)[i], Tail(Body(p)[i + 1..], Checksum(p));
    ReadTail(Body(p)[i + 1..], Checksum(p));
    hide Unstuff, StuffAll, Body, Checksum, Tail;
    if NeedsEscape(x) {
      assert Stuff(x)[0 := b] == [b, Flip(x)];
      ReadOn([b, Flip(x)], z);
    } else {
      assert Stuff(x)[0 := b] == [b];
      ReadOn([b], z);
    }
  }

  /** An escape sequence read as two bytes. */
  lemma {:induction false} EscapeSplit(p: seq<Byte>, i: nat, b: Byte)
    requires Small(p) && i < |Body(p)| && NeedsEscape(Body(p)[i])
    ensures !ValidBody(Body(p)[..i] + ([b, Flip(Body(p)[i])] + (Body(p)[i + 1..] + [Checksum(p)])))
  {
    var u, c := Body(p), Checksum(p);
    var f := Flip(u[i]);
    var v := u[..i] + ([b, f] + (u[i + 1..] + [c]));
    SmallLength(p);
    assert |v| == |p| + 4;
    if i >= 2 {
      LengthKept(p, v);
    } else {
      assert i == 1 && v == [u[0], b] + ([f] + p) + [c];
      assert v[2..|v| - 1] == [f] + p;
      FirstLost(f, p);
    }
  }

  /** The second byte of an escape sequence becomes anything else. */
  lemma {:induction false} EscapedChange(p: seq<Byte>, i: nat, b: Byte)
    requires Small(p) && i < |Body(p)| && NeedsEscape(Body(p)[i]) && b != Flip(Body(p)[i])
    ensures TokenStart(p, i) + 1 < |Encode(p)|
    ensures Decode(Encode(p)[TokenStart(p, i) + 1 := b]) == INCOMPLETE
  {
    Stuffed(Body(p)[i]);
    Changed(p, i, 1, b);
    EscapedMisread(p, i, b);
    FlipTwice(Body(p)[i], b);
    hide *;
    if Checksum(p) != ESC {
      Substituted(p, i, Flip(b));
    }
  }

  lemma {:induction false} EscapedMisread(p: seq<Byte>, i: nat, b: Byte)
    requires i < |Body(p)| && NeedsEscape(Body(p)[i])
    ensures |Stuff(Body(p)[i])| == 2
    ensures var m, c := Misread(p, i, 1, b), Checksum(p);
            m.esc == (c == ESC) && (c != ESC ==> m.out == [Flip(b)] + (Body(p)[i + 1..] + [c]))
  {
    var x, z := Body(p)[i], Tail(Body(p)[i + 1..], Checksum(p));
    ReadTail(Body(p)[i + 1..], Checksum(p));
    assert Stuff(x)[1 := b] == [ESC, b];
    hide Unstuff, StuffAll, Body, Checksum, Tail;
    ReadOn([ESC, b], z);
  }

  lemma {:induction false} FlipTwice(x: Byte, b: Byte)
    requires b != Flip(x)
    ensures Flip(b) != x
  {
  }

  /** A plain byte becomes ESC and swallows what follows it. */
  lemma {:induction false} EscChange(p: seq<Byte>, i: nat)
    requires Small(p) && i < |Body(p)| && !NeedsEscape(Body(p)[i])
    ensures TokenStart(p, i) < |Encode(p)|
    ensures Decode(Encode(p)[TokenStart(p, i) := ESC]) != INCOMPLETE <==> Checksum(p) != ESC && Slips(p, i)
  {
    Changed(p, i, 0, ESC);
    EscMisread(p, i);
    hide *;
    if i + 1 == |Body(p)| {
      ChecksumSwallowed(p, i);
    } else if NeedsEscape(Body(p)[i + 1]) {
      EscapeMisread(p, i);
    } else {
      ByteSwallowed(p, i);
    }
  }

  /** What is read from a plain byte's place on if it becomes ESC. */
  lemma {:induction false} EscMisread(p: seq<Byte>, i: nat)
    requires i < |Body(p)| && !NeedsEscape(Body(p)[i])
    ensures |Stuff(Body(p)[i])| == 1
    ensures var m, u, c := Misread(p, i, 0, ESC), Body(p), Checksum(p);
            if i + 1 == |u| then m == Scan([Flip(c)], false)
            else
              && m.esc == (c == ESC)
              && (c != ESC ==> m.out == (if NeedsEscape(u[i + 1]) then [Flip(ESC), Flip(u[i + 1])] else [Flip(u[i + 1])])
                                        + (u[i + 2..] + [c]))
  {
    var u, c := Body(p), Checksum(p);
    var b := u[i + 1..];
    assert Stuff(u[i])[0 := ESC] == [ESC];
    hide Unstuff, StuffAll, Body, Checksum;
    if b == [] {
      Swallowed(c);
    } else {
      var y, r := b[0], b[1..];
      assert b == [y] + r && r == u[i + 2..];
      EscThen(y, r, c);
    }
  }

  lemma {:induction false} EscThen(y: Byte, r: seq<Byte>, c: Byte)
    ensures var m := Unstuff([ESC] + Tail([y] + r, c));
            && m.esc == (c == ESC)
            && (c != ESC ==> m.out == (if NeedsEscape(y) then [Flip(ESC), Flip(y)] else [Flip(y)]) + (r + [c]))
  {
    FirstStuffed(y, r, c);
    ReadTail(r, c);
    hide Unstuff, StuffAll, Tail;
    var z := Tail(r, c);
    if NeedsEscape(y) {
      assert [ESC] + ([ESC, Flip(y)] + z) == [ESC, ESC] + ([Flip(y)] + z);
      ReadOn([ESC, ESC], [Flip(y)] + z);
      ReadOn([Flip(y)], z);
      assert [Flip(ESC)] + ([Flip(y)] + (r + [c])) == [Flip(ESC), Flip(y)] + (r + [c]);
    } else {
      assert [ESC] + ([y] + z) == [ESC, y] + z;
      ReadOn([ESC, y], z);
    }
  }

  lemma {:induction false} FirstStuffed(y: Byte, r: seq<Byte>, c: Byte)
    ensures Tail([y] + r, c) == Stuff(y) + Tail(r, c)
  {
    StuffAllConcat([y], r);
    assert StuffAll([y]) == StuffAll([]) + Stuff(y);
  }

  lemma {:induction false} Swallowed(c: Byte)
    ensures Unstuff([ESC] + Tail([], c)) == Scan([Flip(c)], false)
  {
    ReadOn([ESC, c], []);
    assert [ESC] + Tail([], c) == [ESC, c] + [];
  }

  /** The last body byte swallows the checksum: too short. */
  lemma {:induction false} ChecksumSwallowed(p: seq<Byte>, i: nat)
    requires Small(p) && i + 1 == |Body(p)|
    ensures !ValidBody(Body(p)[..i] + [Flip(Checksum(p))]) && !Slips(p, i)
  {
    var v := Body(p)[..i] + [Flip(Checksum(p))];
    if i >= 2 {
      LengthKept(p, v);
    }
  }

  /** A plain byte swallows another plain byte: the body is one byte short. */
  lemma {:induction false} ByteSwallowed(p: seq<Byte>, i: nat)
    requires Small(p) && i + 1 < |Body(p)| && !NeedsEscape(Body(p)[i]) && !NeedsEscape(Body(p)[i + 1])
    ensures var u, c := Body(p), Checksum(p);
            ValidBody(u[..i] + ([Flip(u[i + 1])] + (u[i + 2..] + [c]))) <==> Slips(p, i)
  {
    var u, c := Body(p), Checksum(p);
    var v := u[..i] + ([Flip(u[i + 1])] + (u[i + 2..] + [c]));
    SmallLength(p);
    assert |v| == |p| + 2;
    if i >= 2 {
      LengthKept(p, v);
    } else if p == [] {
    } else {
      HeadSwallowed(p, i);
    }
  }

  /** The same where a length byte is the one that swallows: the payload loses its first byte. */
  lemma {:induction false} HeadSwallowed(p: seq<Byte>, i: nat)
    requires Small(p) && p != [] && i < 2 && !NeedsEscape(Body(p)[i]) && !NeedsEscape(Body(p)[i + 1])
    ensures var u, c := Body(p), Checksum(p);
            ValidBody(u[..i] + ([Flip(u[i + 1])] + (u[i + 2..] + [c]))) <==> Slips(p, i)
  {
    var u, c := Body(p), Checksum(p);
    var v := u[..i] + ([Flip(u[i + 1])] + (u[i + 2..] + [c]));
    var hi, lo, x, q := u[0], u[1], p[0], p[1..];
    SmallLength(p);
    assert p == [x] + q && u == [hi, lo] + p;
    assert v == (if i == 0 then [Flip(lo), x] else [hi, Flip(x)]) + q + [c];
    assert v[2..|v| - 1] == q;
    FirstLost(x, q);
    hide Unstuff, StuffAll, Sum, Checksum, LengthBytes, Body;
    if i == 0 && x == 0 {
      ShortHigh(hi, lo, |p|);
    }
  }

  lemma {:induction false} FirstLost(x: Byte, q: seq<Byte>)
    ensures Checksum([x] + q) == Checksum(q) <==> x == 0
  {
    SumConcat([x], q);
    SumSnoc([], x);
    assert [] + [x] == [x];
    if x != 0 {
      ResidueDiffers(Sum(q), x, 0);
    }
  }

  lemma {:induction false} ShortHigh(hi: Byte, lo: Byte, n: nat)
    requires hi <= 7 && Word(hi, lo) == n && n > 0
    ensures Word(Flip(lo), 0) != n - 1
  {
  }

  /** A plain byte swallows the ESC of an escape sequence: two bytes are misread. */
  lemma {:induction false} EscapeMisread(p: seq<Byte>, i: nat)
    requires Small(p) && i + 1 < |Body(p)| && !NeedsEscape(Body(p)[i]) && NeedsEscape(Body(p)[i + 1])
    ensures var u, c := Body(p), Checksum(p);
            ValidBody(u[..i] + ([Flip(ESC), Flip(u[i + 1])] + (u[i + 2..] + [c]))) <==> Slips(p, i)
  {
    var u, c := Body(p), Checksum(p);
    var x, y := u[i], u[i + 1];
    var v := u[..i] + ([Flip(ESC), Flip(y)] + (u[i + 2..] + [c]));
    SmallLength(p);
    assert |v| == |p| + 3;
    hide Sum, Checksum, LengthBytes, Body, Unstuff, StuffAll;
    if i >= 2 {
      var q := p[i - 2 := Flip(ESC)][i - 1 := Flip(y)];
      TwoReplaced(u, p, i - 2, Flip(ESC), Flip(y), c);
      Middle(u[..2], q, c);
      PairChanged(p, i - 2);
    } else if i == 1 {
      assert v[0] == u[0] && v[1] == Flip(ESC);
      if u[1] == Flip(ESC) {
        HeadReplaced(u, p, Flip(ESC), Flip(y), c);
        Middle([u[0], u[1]], p[0 := Flip(y)], c);
        FirstChanged(p, Flip(y));
      }
    } else {
      assert v[0] == Flip(ESC);
    }
  }

  lemma {:induction false} TwoReplaced(u: seq<Byte>, p: seq<Byte>, k: nat, a: Byte, b: Byte, c: Byte)
    requires |u| >= 2 && p == u[2..] && k + 1 < |p|
    ensures u[..k + 2] + ([a, b] + (u[k + 4..] + [c])) == u[..2] + p[k := a][k + 1 := b] + [c]
  {
  }

  lemma {:induction false} HeadReplaced(u: seq<Byte>, p: seq<Byte>, a: Byte, b: Byte, c: Byte)
    requires |u| >= 2 && p == u[2..] && p != []
    ensures u[..1] + ([a, b] + (u[3..] + [c])) == [u[0], a] + p[0 := b] + [c]
  {
  }

  lemma {:induction false} Middle(l: seq<Byte>, q: seq<Byte>, c: Byte)
    requires |l| == 2
    ensures var v := l + q + [c]; v[2..|v| - 1] == q && v[0] == l[0] && v[1] == l[1]
  {
  }

  lemma {:induction false} PairChanged(p: seq<Byte>, k: nat)
    requires k + 1 < |p| && !NeedsEscape(p[k]) && NeedsEscape(p[k + 1])
    ensures Checksum(p[k := Flip(ESC)][k + 1 := Flip(p[k + 1])]) == Checksum(p)
            <==> p[k] == 0x3D && (p[k + 1] == SYNC || p[k + 1] == ESC)
  {
    SumUpdate(p, k, Flip(ESC));
    SumUpdate(p[k := Flip(ESC)], k + 1, Flip(p[k + 1]));
    SameResidue(Sum(p), p[k], p[k + 1]);
  }

  lemma {:induction false} FirstChanged(p: seq<Byte>, x: Byte)
    requires p != [] && p[0] != x
    ensures Checksum(p[0 := x]) != Checksum(p)
  {
    SumUpdate(p, 0, x);
    ResidueDiffers(Sum(p) - p[0], p[0], x);
  }

  lemma {:induction false} SameResidue(n: int, x: Byte, y: Byte)
    requires !NeedsEscape(x) && NeedsEscape(y)
    ensures (n - x + Flip(ESC) - y + Flip(y)) % 256 == n % 256 <==> x == 0x3D && (y == SYNC || y == ESC)
  {
    var d := Flip(ESC) - x - y + Flip(y);
    assert y == SYNC || y == ESC ==> d == 0x3D - x;
    assert y == XON || y == XOFF ==> d == 0x7D - x;
    if d != 0 {
      assert -256 < d < 256;
      Shifted(n, d);
    }
  }

  lemma {:induction false} Shifted(n: int, d: int)
    requires -256 < d < 256 && d != 0
    ensures (n + d) % 256 != n % 256
  {
    var q, r := (n + d) / 256, n / 256;
    assert d == 256 * (q - r) + (n + d) % 256 - n % 256;
  }

  /** The checksum byte becomes anything else. */
  lemma {:induction false} ChecksumChange(p: seq<Byte>, b: Byte)
    requires Small(p) && b != Checksum(p)
    ensures Decode(Encode(p)[|Encode(p)| - 1 := b]) == INCOMPLETE
  {
    var s := Encode(p)[|Encode(p)| - 1 := b];
    EncodeTail(p);
    assert s[1..] == StuffAll(Body(p)) + [b];
    ScanThenRaw(Body(p), b);
    Verdict(s);
    NotCompletedBy(p, b, Body(p) + [b]);
  }

  // ---- All of them

  lemma {:induction false} TokensAscend(p: seq<Byte>, i: nat, j: nat)
    requires i < j <= |Body(p)|
    ensures TokenStart(p, i) + |Stuff(Body(p)[i])| <= TokenStart(p, j)
    decreases j
  {
    var u := Body(p);
    assert u[..j][..j - 1] == u[..j - 1];
    if i < j - 1 {
      TokensAscend(p, i, j - 1);
    }
  }

  /** Every wire byte behind SYNC is the checksum or belongs to the stuffed form of one body byte. */
  lemma {:induction false} TokenAt(p: seq<Byte>, n: nat, k: nat) returns (i: nat)
    requires n <= |Body(p)| && 1 <= k < TokenStart(p, n)
    ensures i < n && TokenStart(p, i) <= k < TokenStart(p, i) + |Stuff(Body(p)[i])|
  {
    var u := Body(p);
    if n == 0 {
      assert false;
    } else {
      assert u[..n][..n - 1] == u[..n - 1];
      if k < TokenStart(p, n - 1) {
        i := TokenAt(p, n - 1, k);
      } else {
        i := n - 1;
      }
    }
  }

  /**
   * One wrong byte behind the SYNC of a frame that fits the receive buffer, whatever the byte and wherever
   * it is: the frame is decoded all the same exactly when the wrong byte is an ESC in the place of a
   * body byte that can slip.
   */
  lemma {:induction false} WireByteError(p: seq<Byte>, k: nat, b: Byte)
    requires |Encode(p)| <= UART_MAX_LEN && 0 < k < |Encode(p)| && b != Encode(p)[k]
    ensures Decode(Encode(p)[k := b]) != INCOMPLETE
            <==> b == ESC && Checksum(p) != ESC && exists i :: 0 <= i < |Body(p)| && Slips(p, i) && k == TokenStart(p, i)
  {
    FrameEnd(p);
    hide *;
    if k == |Encode(p)| - 1 {
      ChecksumChange(p, b);
      NoTokenAt(p, |Body(p)|, k);
    } else {
      var i := TokenAt(p, |Body(p)|, k);
      EncodedByte(p, i, k - TokenStart(p, i));
      Stuffed(Body(p)[i]);
      OnlyTokenAt(p, i, k);
      if k > TokenStart(p, i) {
        EscapedChange(p, i, b);
      } else if b == ESC {
        EscChange(p, i);
      } else {
        PlainChange(p, i, b);
      }
    }
  }

  lemma {:induction false} FrameEnd(p: seq<Byte>)
    requires |Encode(p)| <= UART_MAX_LEN
    ensures Small(p) && TokenStart(p, |Body(p)|) == |Encode(p)| - 1 && Encode(p)[|Encode(p)| - 1] == Checksum(p)
  {
    EncodeTail(p);
    assert Body(p)[..|Body(p)|] == Body(p);
  }

  lemma {:induction false} NoTokenAt(p: seq<Byte>, n: nat, k: nat)
    requires n <= |Body(p)| && k >= TokenStart(p, n)
    ensures forall j :: 0 <= j < n ==> k != TokenStart(p, j)
  {
    hide TokenStart;
    forall j | 0 <= j < n ensures k != TokenStart(p, j) {
      TokensAscend(p, j, n);
      Stuffed(Body(p)[j]);
    }
  }

  lemma {:induction false} OnlyTokenAt(p: seq<Byte>, i: nat, k: nat)
    requires i < |Body(p)| && TokenStart(p, i) <= k < TokenStart(p, i) + |Stuff(Body(p)[i])|
    ensures forall j :: 0 <= j < |Body(p)| && j != i ==> k != TokenStart(p, j)
  {
    hide TokenStart;
    NoTokenAt(p, i, k);
    forall j | i < j < |Body(p)| ensures k != TokenStart(p, j) {
      TokensAscend(p, i, j);
    }
  }

  lemma {:induction false} Stuffed(x: Byte)
    ensures |Stuff(x)| == if NeedsEscape(x) then 2 else 1
    ensures NeedsEscape(x) ==> Stuff(x)[0] == ESC && Stuff(x)[1] == Flip(x)
  {
  }

  lemma {:induction false} EncodedByte(p: seq<Byte>, i: nat, j: nat)
    requires i < |Body(p)| && j < |Stuff(Body(p)[i])|
    ensures TokenStart(p, i) + j < |Encode(p)| && Encode(p)[TokenStart(p, i) + j] == Stuff(Body(p)[i])[j]
  {
    EncodeTail(p);
    Cut(Body(p), i);
  }

  lemma {:induction false} NoRawSync(u: seq<Byte>)
    ensures SYNC !in StuffAll(u)
  {
    if u != [] {
      NoRawSync(u[..|u| - 1]);
    }
  }

  /** A wrong byte in the place of SYNC: no payload comes out, whatever the resynchronisation finds. */
  lemma {:induction false} SyncByteError(p: seq<Byte>, b: Byte)
    requires b != SYNC
    ensures |Encode(p)| > 0 && Decode(Encode(p)[0 := b]).payload == []
  {
    var s, w := Encode(p)[0 := b], StuffAll(Body(p));
    EncodeTail(p);
    NoRawSync(Body(p));
    assert s == [b] + w + [Checksum(p)];
    var f := FirstSync(s);
    forall k | 0 < k < |s| - 1 ensures s[k] != SYNC {
      assert s[k] == w[k - 1] && w[k - 1] in w;
    }
    if f == |s| - 1 {
      assert s[f..] == [SYNC];
    }
  }

  /** Frames and changes that do slip through: the payload is read as another one. */
  lemma {:induction false} WireByteErrorMissed()
    ensures var p: seq<Byte> := [0x3D, SYNC]; var s := Encode(p);
            |s| == 7 && s[3] == 0x3D && Decode(s[3 := ESC]) == Decoded(7, [Flip(ESC), Flip(SYNC)])
  {
    ExampleEncoded();
    ExampleMisread();
    PairSum(Flip(ESC), Flip(SYNC));
    var s := Encode([0x3D, SYNC])[3 := ESC];
    hide Encode, Unstuff, Decode, Sum;
    assert s[1..] == [0, 2, ESC, ESC, 0x5E, 0x44];
    DecoderCharacterised(s, [Flip(ESC), Flip(SYNC)]);
  }

  lemma {:induction false} ExampleEncoded()
    ensures Encode([0x3D, SYNC]) == [SYNC, 0, 2, 0x3D, ESC, 0x5E, 0x44]
  {
    PairSum(0x3D, SYNC);
    PlainUnstuffed([0, 2, 0x3D]);
    StuffAllSnoc([0, 2, 0x3D], SYNC);
    hide StuffAll, Sum, Unstuff;
    assert LengthBytes(2) == [0, 2] && Stuff(SYNC) == [ESC, 0x5E];
    assert [0, 2] + [0x3D, SYNC] == [0, 2, 0x3D] + [SYNC];
    assert StuffAll([0, 2] + [0x3D, SYNC]) == [0, 2, 0x3D, ESC, 0x5E];
  }

  lemma {:induction false} ExampleMisread()
    ensures Unstuff([0, 2, ESC, ESC, 0x5E, 0x44]) == Scan([0, 2, 0x5D, 0x5E, 0x44], false)
  {
    assert Unstuff([]) == Scan([], false);
    hide Unstuff;
    ReadByte([], 0, [0]);
    ReadByte([0], 2, [0, 2]);
    ReadByte([0, 2], ESC, [0, 2, ESC]);
    ReadByte([0, 2, ESC], ESC, [0, 2, ESC, ESC]);
    ReadByte([0, 2, ESC, ESC], 0x5E, [0, 2, ESC, ESC, 0x5E]);
    ReadByte([0, 2, ESC, ESC, 0x5E], 0x44, [0, 2, ESC, ESC, 0x5E, 0x44]);
  }

  lemma {:induction false} ReadByte(w: seq<Byte>, b: Byte, v: seq<Byte>)
    requires v == w + [b]
    ensures var p := Unstuff(w);
            Unstuff(v) == (if p.esc then Scan(p.out + [Flip(b)], false)
                           else if b == ESC then Scan(p.out, true)
                           else Scan(p.out + [b], false))
  {
    UnstuffSnoc(w, b);
  }

  lemma {:induction false} PairSum(x: Byte, y: Byte)
    ensures Sum([x, y]) == x + y
  {
    assert [x, y][..1] == [x] && [x][..0] == [];
    assert Sum([x]) == Sum([]) + x;
  }
}
