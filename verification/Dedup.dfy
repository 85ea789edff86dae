/**
 * The relay's duplicate filter: a small table of sources, each with the time of the last arrival for
 * every sequence number, searched and updated for every message.
 */
module Dedup {
  import opened Bytes
  import opened Clock

  const MAX_DEDUP := 16
  const WINDOW_NS := 80_000_000

  /** One table slot: a source and its 256 arrival times, indexed by sequence number; ZERO means never. */
  datatype Entry = Entry(src: Address, stm: seq<Timespec>)

  predicate WellFormed(e: Entry) {
    |e.stm| == 256
  }

  /** The static state: all slots, how many are searched, and the eviction counter, which never wraps. */
  datatype Table = Table(slots: seq<Entry>, len: nat, rc: nat)

  datatype Arrival = Arrival(src: Address, seqno: Byte, at: Timespec)

  predicate Shape(t: Table) {
    && |t.slots| == MAX_DEDUP
    && t.len < MAX_DEDUP
    && forall i :: 0 <= i < MAX_DEDUP ==> WellFormed(t.slots[i])
  }

  function Never(): (s: seq<Timespec>)
    ensures |s| == 256
  {
    seq(256, k => ZERO)
  }

  const NO_ADDRESS: Address := Zeros(8)

  function Empty(): (t: Table)
    ensures Shape(t)
  {
    Table(seq(MAX_DEDUP, i => Entry(NO_ADDRESS, Never())), 0, 0)
  }

  /** Slot searched for src, or len. */
  function Find(slots: seq<Entry>, len: nat, src: Address, i: nat := 0): (r: nat)
    requires i <= len <= |slots|
    ensures i <= r <= len
    ensures forall k :: i <= k < r ==> slots[k].src != src
    ensures r < len ==> slots[r].src == src
    decreases len - i
  {
    if i == len || slots[i].src == src then i else Find(slots, len, src, i + 1)
  }

  function Stamp(slots: seq<Entry>, i: nat, seqno: Byte, at: Timespec): (r: seq<Entry>)
    requires i < |slots| && WellFormed(slots[i])
    ensures |r| == |slots|
  {
    slots[i := slots[i].(stm := slots[i].stm[seqno := at])]
  }

  /** What one message does to the table, whether it is let through, and whether it evicted a source. */
  datatype Effect = Effect(table: Table, accepted: bool, evicted: bool)

  /** A message is too soon after the recorded arrival prev of the same source and sequence number. */
  predicate TooSoon(prev: Timespec, now: Timespec) {
    prev.sec != 0 && Diff(prev, now).sec == 0 && Diff(prev, now).nsec <= WINDOW_NS
  }

  /**
   * The eviction counter indexes the table unreduced, so only the first 16 evictions stay inside it. The
   * last branch is not what the code does then, it only counts; the theorems are about runs that stay inside.
   */
  function Offer(t: Table, a: Arrival): (e: Effect)
    requires Shape(t)
    ensures Shape(e.table)
  {
    var i := Find(t.slots, t.len, a.src);
    if i < t.len then
      Effect(t.(slots := Stamp(t.slots, i, a.seqno, a.at)), !TooSoon(t.slots[i].stm[a.seqno], a.at), false)
    else if t.len + 1 < MAX_DEDUP then
      var s := t.slots[i := Entry(a.src, t.slots[i].stm)];
      Effect(t.(slots := Stamp(s, i, a.seqno, a.at), len := t.len + 1), true, false)
    else if t.rc < MAX_DEDUP then
      var s := t.slots[t.rc := Entry(a.src, Never())];
      Effect(t.(slots := Stamp(s, t.rc, a.seqno, a.at), rc := t.rc + 1), true, true)
    else
      Effect(t.(rc := t.rc + 1), true, true)
  }

  class Filter {
    const slots: array<Entry>
    var len: nat
    var rc: nat

    function State(): Table
      reads this, slots
    {
      Table(slots[..], len, rc)
    }

    constructor ()
      ensures fresh(slots) && State() == Empty()
    {
      slots := new Entry[MAX_DEDUP](_ => Entry(NO_ADDRESS, Never()));
      len, rc := 0, 0;
      new;
      assert slots[..] == Empty().slots;
    }

    /** The filter's treatment of one message; false sends the receive loop back without queueing it. */
    method Admit(a: Arrival) returns (accepted: bool)
      requires Shape(State())
      requires len + 1 < MAX_DEDUP || rc < MAX_DEDUP || Find(slots[..], len, a.src) < len
      modifies this, slots
      ensures Shape(State())
      ensures State() == old(Offer(State(), a).table) && accepted == old(Offer(State(), a).accepted)
    {
      ghost var before := slots[..];
      var i := 0;
      while i < len
        invariant 0 <= i <= len == old(len) && rc == old(rc) && slots[..] == before
        invariant Find(before, len, a.src) == Find(before, len, a.src, i)
      {
        if slots[i].src == a.src {
          var prev := slots[i].stm[a.seqno];
          slots[i] := slots[i].(stm := slots[i].stm[a.seqno := a.at]);
          assert slots[..] == Stamp(before, i, a.seqno, a.at);
          if prev.sec == 0 {
            return true;
          }
          var tsd := Diff(prev, a.at);
          return !(tsd.sec == 0 && tsd.nsec <= WINDOW_NS);
        }
        i := i + 1;
      }
      len := len + 1;
      if len >= MAX_DEDUP {
        len := len - 1;
        i := rc;
        rc := rc + 1;
        slots[i] := slots[i].(stm := Never());
      }
      slots[i] := slots[i].(src := a.src);
      slots[i] := slots[i].(stm := slots[i].stm[a.seqno := a.at]);
      assert State().slots == Offer(Table(before, old(len), old(rc)), a).table.slots;
      accepted := true;
    }
  }

  // ---- Whole runs

  datatype Trace = Trace(table: Table, accepted: seq<bool>, evicted: seq<bool>)

  function Run(h: seq<Arrival>): (r: Trace)
    ensures Shape(r.table) && |r.accepted| == |r.evicted| == |h|
  {
    if h == [] then Trace(Empty(), [], [])
    else
      var r := Run(h[..|h| - 1]);
      var e := Offer(r.table, h[|h| - 1]);
      Trace(e.table, r.accepted + [e.accepted], r.evicted + [e.evicted])
  }

  /** The message at position i, as the run up to it decides it. */
  lemma {:induction false} RunAt(h: seq<Arrival>, i: nat)
    requires i < |h|
    ensures var e := Offer(Run(h[..i]).table, h[i]);
            Run(h).accepted[i] == e.accepted && Run(h).evicted[i] == e.evicted && Run(h[..i + 1]).table == e.table
  {
    hide Offer;
    assert h[..i + 1][..i] == h[..i];
    if i + 1 < |h| {
      RunAt(h[..|h| - 1], i);
      assert h[..|h| - 1][..i] == h[..i] && h[..|h| - 1][..i + 1] == h[..i + 1];
    } else {
      assert h[..i + 1] == h;
    }
  }

  /** A clock that never goes back. */
  predicate Monotone(h: seq<Arrival>) {
    && (forall i :: 0 <= i < |h| ==> Normal(h[i].at))
    && forall i, j :: 0 <= i <= j < |h| ==> Ns(h[i].at) <= Ns(h[j].at)
  }

  /** The clock's first second, whose times look like "never", is over. */
  predicate Started(h: seq<Arrival>) {
    forall i :: 0 <= i < |h| ==> h[i].at.sec > 0
  }

  /** Position of the latest arrival in h from src with this sequence number, or -1. */
  function Latest(h: seq<Arrival>, src: Address, seqno: Byte): (r: int)
    ensures -1 <= r < |h|
    ensures r >= 0 ==> h[r].src == src && h[r].seqno == seqno
    ensures forall k :: r < k < |h| ==> h[k].src != src || h[k].seqno != seqno
  {
    if h == [] then -1
    else if h[|h| - 1].src == src && h[|h| - 1].seqno == seqno then |h| - 1
    else Latest(h[..|h| - 1], src, seqno)
  }

  function LatestTime(h: seq<Arrival>, src: Address, seqno: Byte): Timespec {
    var r := Latest(h, src, seqno);
    if r < 0 then ZERO else h[r].at
  }

  /** The plain meaning of a duplicate: the latest such arrival in the history is at most 80 ms old. */
  predicate Duplicate(h: seq<Arrival>, a: Arrival) {
    var r := Latest(h, a.src, a.seqno);
    r >= 0 && Ns(a.at) - Ns(h[r].at) <= 80_000_000
  }

  function Sources(h: seq<Arrival>): set<Address> {
    set a | a in h :: a.src
  }

  predicate Distinct(t: Table)
    requires Shape(t)
  {
    forall i, j :: 0 <= i < j < t.len ==> t.slots[i].src != t.slots[j].src
  }

  /** No searched slot records anything but the latest arrival; with evictions it may have forgotten it. */
  ghost predicate Honest(t: Table, h: seq<Arrival>)
    requires Shape(t)
  {
    forall i: int, q: Byte :: 0 <= i < t.len ==>
      t.slots[i].stm[q] == ZERO || t.slots[i].stm[q] == LatestTime(h, t.slots[i].src, q)
  }

  /** Until all 15 usable slots are taken nothing is evicted and the slots not yet taken are zero. */
  ghost predicate Filling(t: Table)
    requires Shape(t)
  {
    t.len + 1 < MAX_DEDUP ==>
      t.rc == 0 && forall i: int, q: Byte :: t.len <= i < MAX_DEDUP ==> t.slots[i].stm[q] == ZERO
  }

  /** The table agrees with the plain history. */
  ghost predicate Complete(t: Table, h: seq<Arrival>)
    requires Shape(t)
  {
    && t.rc == 0
    && (forall i: int, q: Byte :: 0 <= i < t.len ==> t.slots[i].stm[q] == LatestTime(h, t.slots[i].src, q))
    && Searched(t) == Sources(h)
  }

  lemma {:induction false} LatestSnoc(h: seq<Arrival>, a: Arrival, src: Address, q: Byte)
    ensures LatestTime(h + [a], src, q) == if a.src == src && a.seqno == q then a.at else LatestTime(h, src, q)
  {
    assert (h + [a])[..|h|] == h;
  }

  lemma {:induction false} OfferKeepsHonest(t: Table, h: seq<Arrival>, a: Arrival)
    requires Shape(t) && Distinct(t) && Honest(t, h) && Filling(t)
    ensures var t' := Offer(t, a).table; Distinct(t') && Honest(t', h + [a]) && Filling(t')
  {
    var t' := Offer(t, a).table;
    forall i: int, q: Byte | 0 <= i < t'.len
      ensures t'.slots[i].stm[q] == ZERO || t'.slots[i].stm[q] == LatestTime(h + [a], t'.slots[i].src, q)
    {
      LatestSnoc(h, a, t'.slots[i].src, q);
    }
  }

  /** The evictions of the run stay inside the table. */
  predicate InBounds(h: seq<Arrival>) {
    Run(h).table.rc <= 16
  }

  lemma {:induction false} OfferCounts(t: Table, a: Arrival)
    requires Shape(t)
    ensures Offer(t, a).table.rc == t.rc + if Offer(t, a).evicted then 1 else 0
  {
  }

  lemma {:induction false} InBoundsPrefix(h: seq<Arrival>, i: nat)
    requires i <= |h|
    ensures Run(h[..i]).table.rc <= Run(h).table.rc
    ensures InBounds(h) ==> InBounds(h[..i])
  {
    if i == |h| {
      assert h[..i] == h;
    } else {
      OfferCounts(Run(h[..|h| - 1]).table, h[|h| - 1]);
      hide Offer, Shape;
      InBoundsPrefix(h[..|h| - 1], i);
      assert h[..|h| - 1][..i] == h[..i];
    }
  }

  lemma {:induction false} RunHonest(h: seq<Arrival>)
    requires InBounds(h)
    ensures var t := Run(h).table; Distinct(t) && Honest(t, h) && Filling(t)
  {
    if h == [] {
    } else {
      var g := h[..|h| - 1];
      InBoundsPrefix(h, |h| - 1);
      RunHonest(g);
      OfferKeepsHonest(Run(g).table, g, h[|h| - 1]);
      assert g + [h[|h| - 1]] == h;
    }
  }

  lemma {:induction false} SoonMeansWithin(prev: Timespec, now: Timespec)
    requires Normal(prev) && Normal(now) && Ns(prev) <= Ns(now)
    ensures TooSoon(prev, now) <==> prev.sec != 0 && Ns(now) - Ns(prev) <= 80_000_000
  {
    DiffIsSubtraction(prev, now);
  }

  // ---- Refinement of the plain history

  lemma {:induction false} SourcesSnoc(h: seq<Arrival>, a: Arrival)
    ensures Sources(h + [a]) == Sources(h) + {a.src}
  {
    assert forall x :: x in h + [a] <==> x in h || x == a;
  }

  lemma {:induction false} OfferKeepsComplete(t: Table, h: seq<Arrival>, a: Arrival)
    requires Shape(t) && Distinct(t) && Filling(t) && Complete(t, h)
    requires forall x, q: Byte :: x !in Sources(h) ==> LatestTime(h, x, q) == ZERO
    requires t.len + 1 < MAX_DEDUP || a.src in Sources(h)
    ensures Complete(Offer(t, a).table, h + [a]) && !Offer(t, a).evicted
  {
    var t' := Offer(t, a).table;
    SourcesSnoc(h, a);
    forall i: int, q: Byte | 0 <= i < t'.len
      ensures t'.slots[i].stm[q] == LatestTime(h + [a], t'.slots[i].src, q)
    {
      LatestSnoc(h, a, t'.slots[i].src, q);
    }
    SearchedGrows(t, a);
  }

  /** The sources that are searched. */
  function Searched(t: Table): set<Address>
    requires Shape(t)
  {
    set i | 0 <= i < t.len :: t.slots[i].src
  }

  lemma {:induction false} SearchedGrows(t: Table, a: Arrival)
    requires Shape(t) && (t.len + 1 < MAX_DEDUP || a.src in Searched(t))
    ensures var t' := Offer(t, a).table;
            Searched(t') == Searched(t) + {a.src} && !Offer(t, a).evicted
            && t'.len == t.len + (if a.src in Searched(t) then 0 else 1)
  {
    var t', f := Offer(t, a).table, Find(t.slots, t.len, a.src);
    FindSearched(t, a.src);
    assert forall i :: 0 <= i < t.len ==> t'.slots[i].src == t.slots[i].src;
    assert t'.slots[f].src == a.src && t'.slots[f].src in Searched(t');
    assert Searched(t) <= Searched(t') by {
      forall i | 0 <= i < t.len ensures t.slots[i].src in Searched(t') {
        assert t'.slots[i].src in Searched(t');
      }
    }
  }

  lemma {:induction false} FindSearched(t: Table, src: Address)
    requires Shape(t)
    ensures Find(t.slots, t.len, src) < t.len <==> src in Searched(t)
  {
    var f := Find(t.slots, t.len, src);
    if f < t.len {
      assert t.slots[f].src in Searched(t);
    }
  }

  lemma {:induction false} NoSourceNoTime(h: seq<Arrival>, src: Address, q: Byte)
    requires src !in Sources(h)
    ensures LatestTime(h, src, q) == ZERO
  {
    assert forall r :: 0 <= r < |h| ==> h[r] in h;
  }

  /** With at most 15 sources the table IS the history: nothing is evicted and every time is the latest. */
  lemma {:induction false} RunComplete(h: seq<Arrival>)
    requires |Sources(h)| <= 15
    ensures Complete(Run(h).table, h) && Run(h).table.len == |Sources(h)|
    ensures forall i :: 0 <= i < |h| ==> !Run(h).evicted[i]
  {
    hide Offer;
    if h == [] {
    } else {
      var g, a := h[..|h| - 1], h[|h| - 1];
      assert g + [a] == h;
      SourcesSnoc(g, a);
      assert a.src in Sources(g) ==> Sources(h) == Sources(g);
      assert Sources(g) <= Sources(h);
      SubsetSize(Sources(g), Sources(h));
      RunComplete(g);
      RunHonest(g);
      forall x, q: Byte | x !in Sources(g) ensures LatestTime(g, x, q) == ZERO {
        NoSourceNoTime(g, x, q);
      }
      OfferKeepsComplete(Run(g).table, g, a);
      SearchedGrows(Run(g).table, a);
    }
  }

  lemma {:induction false} SubsetSize<T>(a: set<T>, b: set<T>)
    requires a <= b
    ensures |a| <= |b|
  {
    assert b == a + (b - a);
  }

  /**
   * The table refines the plain history: in every run with at most 15 sources a message is dropped
   * exactly when the latest arrival of the same source and sequence number is at most 80 ms old and was
   * not in the clock's second zero; once that second is over, exactly when it is a duplicate.
   */
  lemma {:induction false} DropsExactlyDuplicates(h: seq<Arrival>, i: nat)
    requires Monotone(h) && |Sources(h)| <= 15 && i < |h|
    ensures !Run(h).accepted[i] <==> Duplicate(h[..i], h[i]) && h[Latest(h[..i], h[i].src, h[i].seqno)].at.sec != 0
    ensures Started(h) ==> (!Run(h).accepted[i] <==> Duplicate(h[..i], h[i]))
  {
    var g, a := h[..i], h[i];
    assert Sources(g) <= Sources(h);
    SubsetSize(Sources(g), Sources(h));
    RunComplete(g);
    RunAt(h, i);
    assert forall k :: 0 <= k < i ==> g[k] == h[k];
    CompleteDecides(Run(g).table, g, a);
  }

  lemma {:induction false} CompleteDecides(t: Table, g: seq<Arrival>, a: Arrival)
    requires Shape(t) && Complete(t, g)
    requires Normal(a.at)
    requires forall k :: 0 <= k < |g| ==> Normal(g[k].at) && Ns(g[k].at) <= Ns(a.at)
    ensures !Offer(t, a).accepted <==> Duplicate(g, a) && g[Latest(g, a.src, a.seqno)].at.sec != 0
  {
    var r := Latest(g, a.src, a.seqno);
    FindSearched(t, a.src);
    if a.src !in Sources(g) {
      assert forall k :: 0 <= k < |g| ==> g[k] in g;
    } else if r >= 0 {
      SoonMeansWithin(g[r].at, a.at);
    }
  }

  /**
   * The window, in numbers: of two messages with the same source and number, the second at a normalised time
   * d nanoseconds after the first, exactly those with d up to 80 000 000 are dropped.
   */
  lemma {:induction false} WindowExact(src: Address, q: Byte, sec: int, nsec: int, sec': int, nsec': int)
    requires sec > 0 && 0 <= nsec < 1_000_000_000 && 0 <= nsec' < 1_000_000_000
    requires (sec' - sec) * 1_000_000_000 + nsec' - nsec >= 0
    ensures var h := [Arrival(src, q, Timespec(sec, nsec)), Arrival(src, q, Timespec(sec', nsec'))];
            && Run(h).accepted[0]
            && (Run(h).accepted[1] <==> (sec' - sec) * 1_000_000_000 + nsec' - nsec > 80_000_000)
  {
    var a, b := Arrival(src, q, Timespec(sec, nsec)), Arrival(src, q, Timespec(sec', nsec'));
    var h := [a, b];
    assert h[..0] == [] && h[..1] == [a];
    assert forall x :: x in h <==> x == a || x == b;
    assert Sources(h) == {src};
    assert Latest([a], src, q) == 0;
    hide Run;
    DropsExactlyDuplicates(h, 0);
    DropsExactlyDuplicates(h, 1);
  }

  /** In the clock's second zero nothing is recognised: an immediate repetition passes. */
  lemma {:induction false} FirstSecondPasses(a: Arrival)
    requires Normal(a.at) && a.at.sec == 0
    ensures Duplicate([a], a) && Run([a, a]).accepted == [true, true]
  {
    var h := [a, a];
    assert h[..0] == [] && h[..1] == [a];
    assert forall x :: x in h <==> x == a;
    assert Sources(h) == {a.src};
    assert Latest([a], a.src, a.seqno) == 0;
    DropsExactlyDuplicates(h, 0);
    DropsExactlyDuplicates(h, 1);
  }

  // ---- Runs with evictions

  lemma {:induction false} FindUnique(t: Table, src: Address, i: nat)
    requires Shape(t) && Distinct(t) && i < t.len && t.slots[i].src == src
    ensures Find(t.slots, t.len, src) == i
  {
  }

  /** This message takes the slot of src away. */
  predicate Displaces(t: Table, a: Arrival, src: Address)
    requires Shape(t)
  {
    Offer(t, a).evicted && t.rc < t.len && t.slots[t.rc].src == src
  }

  /** src is found with the time at recorded for q, or the table has used up its evictions. */
  predicate Kept(t: Table, src: Address, q: Byte, at: Timespec)
    requires Shape(t)
  {
    var f := Find(t.slots, t.len, src);
    if f < t.len then t.slots[f].stm[q] == at else t.rc >= MAX_DEDUP
  }

  /** The table is full, and src is not found or has no time recorded for q. */
  predicate Gone(t: Table, src: Address, q: Byte)
    requires Shape(t)
  {
    var f := Find(t.slots, t.len, src);
    t.len + 1 == MAX_DEDUP && (f < t.len ==> t.slots[f].stm[q] == ZERO)
  }

  lemma {:induction false} OfferRecords(t: Table, a: Arrival)
    requires Shape(t) && Distinct(t) && Distinct(Offer(t, a).table)
    ensures Kept(Offer(t, a).table, a.src, a.seqno, a.at)
  {
    var t', i := Offer(t, a).table, Find(t.slots, t.len, a.src);
    if i < t.len || t.len + 1 < MAX_DEDUP {
      FindUnique(t', a.src, i);
    } else if t.rc < t.len {
      FindUnique(t', a.src, t.rc);
    }
  }

  lemma {:induction false} OfferKeeps(t: Table, a: Arrival, src: Address, q: Byte, at: Timespec)
    requires Shape(t) && Distinct(t) && Filling(t) && Distinct(Offer(t, a).table)
    requires Kept(t, src, q, at) && (a.src != src || a.seqno != q)
    ensures !Displaces(t, a, src) ==> Kept(Offer(t, a).table, src, q, at)
    ensures Displaces(t, a, src) ==> Gone(Offer(t, a).table, src, q)
  {
    var t', f := Offer(t, a).table, Find(t.slots, t.len, src);
    if Displaces(t, a, src) {
      FindUnique(t, src, t.rc);
    } else if f < t.len {
      FindUnique(t', src, f);
    }
  }

  lemma {:induction false} OfferKeepsGone(t: Table, a: Arrival, src: Address, q: Byte)
    requires Shape(t) && Distinct(t) && Distinct(Offer(t, a).table)
    requires Gone(t, src, q) && (a.src != src || a.seqno != q)
    ensures Gone(Offer(t, a).table, src, q)
  {
    var t' := Offer(t, a).table;
    var f := Find(t'.slots, t'.len, src);
    if f < t'.len && t.slots[f].src == src {
      FindUnique(t, src, f);
    }
  }

  /** Between positions r and i of the run, src lost its slot to another source. */
  predicate Forgotten(h: seq<Arrival>, src: Address, r: nat, i: nat)
    requires i <= |h|
  {
    exists k :: r < k < i && Displaces(Run(h[..k]).table, h[k], src)
  }

  /** Where the time of arrival r stands before arrival i, if nothing between them renewed it. */
  lemma {:induction false} Fate(h: seq<Arrival>, r: nat, i: nat)
    requires InBounds(h) && r < i <= |h|
    requires forall k :: r < k < i ==> h[k].src != h[r].src || h[k].seqno != h[r].seqno
    ensures if Forgotten(h, h[r].src, r, i) then Gone(Run(h[..i]).table, h[r].src, h[r].seqno)
            else Kept(Run(h[..i]).table, h[r].src, h[r].seqno, h[r].at)
    decreases i
  {
    hide *;
    HonestAt(h, i - 1);
    ForgottenStep(h, h[r].src, r, i - 1);
    if i == r + 1 {
      OfferRecords(Run(h[..i - 1]).table, h[r]);
    } else {
      Fate(h, r, i - 1);
      if Forgotten(h, h[r].src, r, i - 1) {
        OfferKeepsGone(Run(h[..i - 1]).table, h[i - 1], h[r].src, h[r].seqno);
      } else {
        OfferKeeps(Run(h[..i - 1]).table, h[i - 1], h[r].src, h[r].seqno, h[r].at);
      }
    }
  }

  lemma {:induction false} ForgottenStep(h: seq<Arrival>, src: Address, r: nat, i: nat)
    requires r <= i < |h|
    ensures Forgotten(h, src, r, i + 1)
            <==> r < i && (Forgotten(h, src, r, i) || Displaces(Run(h[..i]).table, h[i], src))
  {
    hide Displaces, Run;
  }

  lemma {:induction false} HonestAt(h: seq<Arrival>, i: nat)
    requires InBounds(h) && i < |h|
    ensures Run(h[..i + 1]).table == Offer(Run(h[..i]).table, h[i]).table
    ensures Distinct(Run(h[..i]).table) && Distinct(Run(h[..i + 1]).table) && Filling(Run(h[..i]).table)
    ensures Honest(Run(h[..i]).table, h[..i])
    ensures Run(h[..i + 1]).table.rc <= 16
  {
    hide Offer, Distinct, Filling, Honest;
    RunAt(h, i);
    InBoundsPrefix(h, i);
    InBoundsPrefix(h, i + 1);
    RunHonest(h[..i]);
    RunHonest(h[..i + 1]);
  }

  /**
   * Exactly when a duplicate is recognised, with any number of sources: the latest arrival of the same
   * source and sequence number is at most 80 ms old, was not in the clock's second zero, and the source
   * has not lost its slot since.
   */
  lemma {:induction false} DropsExactlyRemembered(h: seq<Arrival>, i: nat)
    requires Monotone(h) && InBounds(h) && i < |h|
    ensures var r := Latest(h[..i], h[i].src, h[i].seqno);
            !Run(h).accepted[i]
            <==> Duplicate(h[..i], h[i]) && h[r].at.sec != 0 && !Forgotten(h, h[i].src, r, i)
  {
    var r := Latest(h[..i], h[i].src, h[i].seqno);
    RunAt(h, i);
    HonestAt(h, i);
    hide *;
    if r < 0 {
      UnseenPasses(Run(h[..i]).table, h[..i], h[i]);
      NotDuplicate(h[..i], h[i]);
    } else {
      LatestIn(h, i, h[i].src, h[i].seqno);
      Fate(h, r, i);
      MonotoneBetween(h, r, i);
      SoonMeansWithin(h[r].at, h[i].at);
      if Forgotten(h, h[i].src, r, i) {
        GonePasses(Run(h[..i]).table, h[i]);
      } else {
        KeptDecides(Run(h[..i]).table, h[i], h[r].at);
      }
    }
  }

  lemma {:induction false} MonotoneBetween(h: seq<Arrival>, r: nat, i: nat)
    requires Monotone(h) && r <= i < |h|
    ensures Normal(h[r].at) && Normal(h[i].at) && Ns(h[r].at) <= Ns(h[i].at)
  {
  }

  lemma {:induction false} NotDuplicate(g: seq<Arrival>, a: Arrival)
    requires Latest(g, a.src, a.seqno) < 0
    ensures !Duplicate(g, a)
  {
  }

  /** What the latest arrival before position i means in terms of the whole run. */
  lemma {:induction false} LatestIn(h: seq<Arrival>, i: nat, src: Address, q: Byte)
    requires i < |h| && Latest(h[..i], src, q) >= 0
    ensures var r := Latest(h[..i], src, q);
            && r < i && h[r].src == src && h[r].seqno == q
            && (forall k :: r < k < i ==> h[k].src != src || h[k].seqno != q)
            && (src == h[i].src && q == h[i].seqno ==>
                  (Duplicate(h[..i], h[i]) <==> Ns(h[i].at) - Ns(h[r].at) <= 80_000_000))
  {
    assert forall k :: 0 <= k < i ==> h[..i][k] == h[k];
  }

  lemma {:induction false} UnseenPasses(t: Table, g: seq<Arrival>, a: Arrival)
    requires Shape(t) && Honest(t, g) && Latest(g, a.src, a.seqno) < 0
    ensures Offer(t, a).accepted
  {
  }

  lemma {:induction false} GonePasses(t: Table, a: Arrival)
    requires Shape(t) && Gone(t, a.src, a.seqno)
    ensures Offer(t, a).accepted
  {
  }

  lemma {:induction false} KeptDecides(t: Table, a: Arrival, at: Timespec)
    requires Shape(t) && Filling(t) && Kept(t, a.src, a.seqno, at) && Offer(t, a).table.rc <= 16
    ensures Offer(t, a).accepted <==> !TooSoon(at, a.at)
  {
  }

  /** Never dropped without cause: whatever was evicted, a dropped message repeats an arrival at most 80 ms old. */
  lemma {:induction false} DropHasCause(h: seq<Arrival>, i: nat)
    requires Monotone(h) && InBounds(h) && i < |h| && !Run(h).accepted[i]
    ensures Duplicate(h[..i], h[i])
    ensures exists j :: 0 <= j < i && h[j].src == h[i].src && h[j].seqno == h[i].seqno
                        && Ns(h[i].at) - Ns(h[j].at) <= 80_000_000
  {
    DropsExactlyRemembered(h, i);
    hide Run, Monotone, Forgotten;
    var r := Latest(h[..i], h[i].src, h[i].seqno);
    assert h[..i][r] == h[r];
  }

  /**
   * Once the clock's second zero is over, and unless the source lost its slot in between, a later message
   * with an arrival's source and sequence number is let through only more than 80 ms after it.
   */
  lemma {:induction false} AcceptedApart(h: seq<Arrival>, i: nat, j: nat)
    requires Monotone(h) && Started(h) && InBounds(h) && i < j < |h|
    requires h[i].src == h[j].src && h[i].seqno == h[j].seqno
    requires !Forgotten(h, h[i].src, i, j)
    requires Run(h).accepted[j]
    ensures Ns(h[j].at) - Ns(h[i].at) > 80_000_000
  {
    DropsExactlyRemembered(h, j);
    var r := Latest(h[..j], h[j].src, h[j].seqno);
    assert h[..j][i] == h[i];
    assert r >= i;
  }

  /** The eviction counter counts evictions. */
  function Count(bs: seq<bool>): nat {
    if bs == [] then 0 else Count(bs[..|bs| - 1]) + if bs[|bs| - 1] then 1 else 0
  }

  lemma {:induction false} EvictionsCounted(h: seq<Arrival>)
    requires InBounds(h)
    ensures Run(h).table.rc == Count(Run(h).evicted)
  {
    if h == [] {
    } else {
      InBoundsPrefix(h, |h| - 1);
      EvictionsCounted(h[..|h| - 1]);
      assert Run(h).evicted[..|h| - 1] == Run(h[..|h| - 1]).evicted;
    }
  }

  // ---- Why fifteen sources are the limit

  /** Until a sixteenth source appears, slot 0 belongs to the source of the first message. */
  lemma {:induction false} FirstSlot(h: seq<Arrival>)
    requires h != [] && |Sources(h)| <= 15
    ensures var t := Run(h).table; t.len > 0 && t.rc == 0 && t.slots[0].src == h[0].src
  {
    var g, a := h[..|h| - 1], h[|h| - 1];
    assert Sources(g) <= Sources(h);
    SubsetSize(Sources(g), Sources(h));
    RunComplete(h);
    RunComplete(g);
    if g != [] {
      FirstSlot(g);
    }
  }

  /**
   * After any run with fifteen sources, a message from a sixteenth makes the table forget the source of
   * the very first message: its next message passes however soon it repeats an earlier one.
   */
  lemma {:induction false} EvictionForgets(h: seq<Arrival>, a: Arrival, b: Arrival)
    requires |Sources(h)| == 15 && a.src !in Sources(h) && b.src == h[0].src
    ensures Run(h + [a]).evicted[|h|] && Forgotten(h + [a, b], b.src, 0, |h| + 1)
    ensures Run(h + [a, b]).accepted[|h| + 1]
  {
    FullTable(h);
    hide *;
    TableForgets(Run(h).table, a, b);
    LastTwo(h, a, b);
    assert (h + [a, b])[..|h|] == h;
    ForgottenBy(h + [a, b], b.src, 0, |h|, |h| + 1);
  }

  lemma {:induction false} FullTable(h: seq<Arrival>)
    requires |Sources(h)| == 15
    ensures var t := Run(h).table;
            Distinct(t) && t.len + 1 == MAX_DEDUP && t.rc == 0 && Searched(t) == Sources(h)
    ensures h != [] && Run(h).table.slots[0].src == h[0].src
  {
    RunComplete(h);
    assert h == [] ==> Sources(h) == {};
    FirstSlot(h);
    RunHonest(h);
  }

  lemma {:induction false} LastTwo(h: seq<Arrival>, a: Arrival, b: Arrival)
    ensures Run(h + [a]).evicted[|h|] == Offer(Run(h).table, a).evicted
    ensures Run(h + [a, b]).accepted[|h| + 1] == Offer(Offer(Run(h).table, a).table, b).accepted
  {
    hide Offer;
    assert (h + [a])[..|h|] == h && (h + [a, b])[..|h| + 1] == h + [a];
  }

  lemma {:induction false} ForgottenBy(h: seq<Arrival>, src: Address, r: nat, k: nat, i: nat)
    requires r < k < i <= |h| && Displaces(Run(h[..k]).table, h[k], src)
    ensures Forgotten(h, src, r, i)
  {
  }

  lemma {:induction false} TableForgets(t: Table, a: Arrival, b: Arrival)
    requires Shape(t) && Distinct(t) && t.len + 1 == MAX_DEDUP && t.rc == 0
    requires a.src !in Searched(t) && b.src == t.slots[0].src
    ensures Offer(t, a).evicted && Displaces(t, a, b.src) && Offer(Offer(t, a).table, b).accepted
  {
    var t' := Offer(t, a).table;
    FindSearched(t, a.src);
    assert t.slots[0].src in Searched(t);
    forall i | 0 <= i < t'.len ensures t'.slots[i].src != b.src {
    }
  }

  /** A source for every number below 256. */
  function Numbered(k: Byte): Address {
    [k] + Zeros(7)
  }

  function Volley(n: nat, at: Timespec): (h: seq<Arrival>)
    requires n <= 16
    ensures |h| == n
    ensures forall k :: 0 <= k < n ==> h[k] == Arrival(Numbered(k), 1, at)
  {
    seq(n, k requires 0 <= k < n => Arrival(Numbered(k), 1, at))
  }

  lemma {:induction false} VolleySources(n: nat, at: Timespec)
    requires n <= 16
    ensures |Sources(Volley(n, at))| == n
    ensures forall k: Byte :: Numbered(k) in Sources(Volley(n, at)) <==> k < n
  {
    if n > 0 {
      VolleySources(n - 1, at);
      var a := Arrival(Numbered(n - 1), 1, at);
      assert Volley(n, at) == Volley(n - 1, at) + [a];
      SourcesSnoc(Volley(n - 1, at), a);
      forall k: Byte ensures Numbered(k) in Sources(Volley(n, at)) <==> k < n {
        assert Numbered(k) == Numbered(n - 1) ==> k == n - 1 by {
          assert Numbered(k)[0] == k && Numbered(n - 1)[0] == n - 1;
        }
      }
    }
  }

  /** A run in which it happens: sixteen sources send once, and the first one's repetition at the same instant passes. */
  lemma {:induction false} SixteenSourcesFail(at: Timespec)
    requires Normal(at)
    ensures var g := Volley(16, at); var a := g[0];
            Duplicate(g, a) && Run(g + [a]).accepted[16]
  {
    hide Run, Latest, Sources;
    var g, h := Volley(16, at), Volley(15, at);
    var a, b := g[15], g[0];
    VolleySources(15, at);
    assert g == h + [a] && g + [b] == h + [a, b];
    EvictionForgets(h, a, b);
    assert (g + [b])[..16] == g;
    StillDuplicate(g, 0);
  }

  lemma {:induction false} StillDuplicate(g: seq<Arrival>, i: nat)
    requires i < |g| && forall k :: 0 <= k < |g| ==> g[k].at == g[i].at
    ensures Duplicate(g, g[i])
  {
    assert Latest(g, g[i].src, g[i].seqno) >= i;
  }
}
