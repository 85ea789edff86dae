/**
 * The sender's sequence counter and the duplicate filter together: every send gets through the filter
 * exactly once, however many copies of it arrive. What the queue behind the filter does is BoundedQueue's.
 */
module ExactlyOnce {
  import opened Bytes
  import opened Clock
  import opened Dedup
  import opened Sender

  /** When each source made each of its sends, in nanoseconds of a common clock. */
  type Schedule = (Address, nat) -> int

  ghost predicate Paced(sent: Schedule) {
    forall s, k: nat, m: nat :: m == k + 1 ==> sent(s, m) >= sent(s, k) + 1_000_000
  }

  lemma {:induction false} PacedFar(sent: Schedule, s: Address, k: nat, m: nat)
    requires Paced(sent) && k <= m
    ensures sent(s, m) >= sent(s, k) + (m - k) * 1_000_000
    decreases m - k
  {
    if k < m {
      PacedFar(sent, s, k, m - 1);
      assert sent(s, m) >= sent(s, m - 1) + 1_000_000;
    }
  }

  /** One copy of a send as it reaches the filter. */
  datatype Copy = Copy(src: Address, send: nat, at: Timespec)

  function AsArrival(c: Copy): Arrival {
    Arrival(c.src, SeqOf(c.send), c.at)
  }

  function Arrivals(cs: seq<Copy>): (h: seq<Arrival>)
    ensures |h| == |cs|
    ensures forall i :: 0 <= i < |cs| ==> h[i] == AsArrival(cs[i])
  {
    seq(|cs|, i requires 0 <= i < |cs| => AsArrival(cs[i]))
  }

  /** Every copy arrives at or after its send and at most 80 ms later. */
  ghost predicate Timely(sent: Schedule, cs: seq<Copy>) {
    forall i :: 0 <= i < |cs| ==>
      sent(cs[i].src, cs[i].send) <= Ns(cs[i].at) <= sent(cs[i].src, cs[i].send) + 80_000_000
  }

  predicate SameSend(c: Copy, d: Copy) {
    c.src == d.src && c.send == d.send
  }

  /** The filter has seen no copy of this send before position i. */
  predicate First(cs: seq<Copy>, i: nat)
    requires i < |cs|
  {
    forall j :: 0 <= j < i ==> !SameSend(cs[j], cs[i])
  }

  /** Copies with equal source and sequence number, close in time, are copies of the same send. */
  lemma {:induction false} CloseMeansSame(sent: Schedule, cs: seq<Copy>, j: nat, i: nat)
    requires Paced(sent) && Timely(sent, cs) && j < i < |cs|
    requires cs[j].src == cs[i].src && SeqOf(cs[j].send) == SeqOf(cs[i].send)
    requires 0 <= Ns(cs[i].at) - Ns(cs[j].at) <= 80_000_000
    ensures SameSend(cs[j], cs[i])
  {
    var s, k, m := cs[i].src, cs[j].send, cs[i].send;
    if k < m {
      SameSeqFarApart(k, m);
      PacedFar(sent, s, k, m);
    } else if m < k {
      SameSeqFarApart(m, k);
      PacedFar(sent, s, m, k);
    }
  }

  /** The assumptions on a run: paced senders, timely copies, a sane clock, at most 15 sources. */
  ghost predicate Assumed(sent: Schedule, cs: seq<Copy>) {
    && Paced(sent) && Timely(sent, cs)
    && Monotone(Arrivals(cs)) && Started(Arrivals(cs)) && |Sources(Arrivals(cs))| <= 15
  }

  /**
   * Exactly once: sources that send at least 1 ms apart, copies that arrive within 80 ms of their send,
   * at most 15 sources. Then the filter lets through exactly the first copy of every send.
   */
  lemma {:induction false} ExactlyFirstCopies(sent: Schedule, cs: seq<Copy>, i: nat)
    requires Assumed(sent, cs) && i < |cs|
    ensures Run(Arrivals(cs)).accepted[i] <==> First(cs, i)
  {
    var h := Arrivals(cs);
    DropsExactlyDuplicates(h, i);
    var r := Latest(h[..i], h[i].src, h[i].seqno);
    if r >= 0 && Duplicate(h[..i], h[i]) {
      CloseMeansSame(sent, cs, r, i);
    }
    if !First(cs, i) {
      var j :| 0 <= j < i && SameSend(cs[j], cs[i]);
      assert h[..i][j] == AsArrival(cs[j]);
      assert r >= j;
      assert Ns(h[j].at) <= Ns(h[r].at);
    }
  }

  /** The copies the filter lets through, in order. */
  function LetThrough(cs: seq<Copy>): seq<Copy> {
    if cs == [] then []
    else
      var n := |cs| - 1;
      if Run(Arrivals(cs)).accepted[n] then LetThrough(cs[..n]) + [cs[n]] else LetThrough(cs[..n])
  }

  lemma {:induction false} ArrivalsPrefix(cs: seq<Copy>, n: nat)
    requires n <= |cs|
    ensures Arrivals(cs[..n]) == Arrivals(cs)[..n]
    ensures Sources(Arrivals(cs[..n])) <= Sources(Arrivals(cs))
  {
    assert forall a :: a in Arrivals(cs)[..n] ==> a in Arrivals(cs);
  }

  predicate Covered(c: Copy, out: seq<Copy>) {
    exists j :: 0 <= j < |out| && SameSend(c, out[j])
  }

  /** out holds exactly one copy of every send in cs. */
  predicate OneEach(cs: seq<Copy>, out: seq<Copy>) {
    && (forall i :: 0 <= i < |cs| ==> Covered(cs[i], out))
    && (forall i, j :: 0 <= i < j < |out| ==> !SameSend(out[i], out[j]))
  }

  lemma {:induction false} OneEachFirst(g: seq<Copy>, out: seq<Copy>, c: Copy)
    requires OneEach(g, out) && forall j :: 0 <= j < |out| ==> !SameSend(out[j], c)
    ensures OneEach(g + [c], out + [c])
  {
    forall i | 0 <= i <= |g| ensures Covered((g + [c])[i], out + [c]) {
      if i < |g| {
        var j :| 0 <= j < |out| && SameSend(g[i], out[j]);
        assert SameSend(g[i], (out + [c])[j]);
      } else {
        assert SameSend(c, (out + [c])[|out|]);
      }
    }
  }

  lemma {:induction false} OneEachRepeat(g: seq<Copy>, out: seq<Copy>, c: Copy, j: nat)
    requires OneEach(g, out) && j < |g| && SameSend(g[j], c)
    ensures OneEach(g + [c], out)
  {
    assert Covered(g[j], out);
    var k :| 0 <= k < |out| && SameSend(g[j], out[k]);
    assert SameSend(c, out[k]);
  }

  lemma {:induction false} LetThroughNew(g: seq<Copy>, c: Copy)
    requires forall j :: 0 <= j < |g| ==> !SameSend(g[j], c)
    ensures forall j :: 0 <= j < |LetThrough(g)| ==> !SameSend(LetThrough(g)[j], c)
  {
    if g != [] {
      LetThroughNew(g[..|g| - 1], c);
    }
  }

  /** The filter invents nothing: what it lets through is part of what arrived. */
  lemma {:induction false} LetThroughArrived(cs: seq<Copy>)
    ensures multiset(LetThrough(cs)) <= multiset(cs)
  {
    if cs != [] {
      var n := |cs| - 1;
      LetThroughArrived(cs[..n]);
      assert multiset(cs) == multiset(cs[..n]) + multiset{cs[n]} by {
        assert cs == cs[..n] + [cs[n]];
      }
      hide Run;
    }
  }

  lemma {:induction false} AssumedPrefix(sent: Schedule, cs: seq<Copy>, n: nat)
    requires Assumed(sent, cs) && n <= |cs|
    ensures Assumed(sent, cs[..n])
  {
    ArrivalsPrefix(cs, n);
    SubsetSize(Sources(Arrivals(cs[..n])), Sources(Arrivals(cs)));
  }

  /** The filter's decision on the last copy. */
  lemma {:induction false} LetThroughStep(sent: Schedule, g: seq<Copy>, c: Copy)
    requires Assumed(sent, g + [c]) && OneEach(g, LetThrough(g))
    ensures OneEach(g + [c], LetThrough(g + [c]))
  {
    var cs := g + [c];
    ExactlyFirstCopies(sent, cs, |g|);
    assert cs[..|g|] == g;
    assert LetThrough(cs) == if First(cs, |g|) then LetThrough(g) + [c] else LetThrough(g);
    hide Assumed, OneEach, LetThrough;
    if First(cs, |g|) {
      assert forall j :: 0 <= j < |g| ==> g[j] == cs[j];
      LetThroughNew(g, c);
      OneEachFirst(g, LetThrough(g), c);
    } else {
      var j :| 0 <= j < |g| && SameSend(cs[j], c);
      OneEachRepeat(g, LetThrough(g), c, j);
    }
  }

  /** Over a whole run: every send that arrives at all is let through, and none is let through twice. */
  lemma {:induction false} EverySendOnce(sent: Schedule, cs: seq<Copy>)
    requires Assumed(sent, cs)
    ensures OneEach(cs, LetThrough(cs))
  {
    if cs != [] {
      var n := |cs| - 1;
      AssumedPrefix(sent, cs, n);
      EverySendOnce(sent, cs[..n]);
      assert cs == cs[..n] + [cs[n]];
      LetThroughStep(sent, cs[..n], cs[n]);
    }
  }
}
