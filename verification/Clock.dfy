/** struct timespec arithmetic (ts_diff, ts_add), including the aliased calls the program makes. */
module Clock {

  const NS_PER_SEC := 1_000_000_000

  /** A struct timespec as a value. */
  datatype Timespec = Timespec(sec: int, nsec: int)

  const ZERO := Timespec(0, 0)

  predicate Normal(t: Timespec) {
    0 <= t.nsec < 1_000_000_000
  }

  function Ns(t: Timespec): int {
    t.sec * 1_000_000_000 + t.nsec
  }

  /** b - a, as ts_diff computes it. */
  function Diff(a: Timespec, b: Timespec): Timespec {
    if b.nsec - a.nsec < 0 then Timespec(b.sec - a.sec - 1, NS_PER_SEC + b.nsec - a.nsec)
    else Timespec(b.sec - a.sec, b.nsec - a.nsec)
  }

  /** The nanosecond count is the difference whatever the operands; normalised ones have a normalised difference. */
  lemma {:induction false} DiffIsSubtraction(a: Timespec, b: Timespec)
    ensures Ns(Diff(a, b)) == Ns(b) - Ns(a)
    ensures Normal(a) && Normal(b) ==> Normal(Diff(a, b))
  {
  }

  /** The storage behind a struct timespec pointer. */
  class Cell {
    var sec: int
    var nsec: int

    constructor (t: Timespec)
      ensures Value() == t
    {
      sec, nsec := t.sec, t.nsec;
    }

    function Value(): Timespec
      reads this
    {
      Timespec(sec, nsec)
    }
  }

  /** ts_diff: dst may be a or b; the result is that of the values on entry. */
  method TsDiff(dst: Cell, a: Cell, b: Cell)
    modifies dst
    ensures dst.Value() == Diff(old(a.Value()), old(b.Value()))
  {
    if b.nsec - a.nsec < 0 {
      dst.sec := b.sec - a.sec - 1;
      dst.nsec := NS_PER_SEC + b.nsec - a.nsec;
    } else {
      dst.sec := b.sec - a.sec;
      dst.nsec := b.nsec - a.nsec;
    }
  }

  /**
   * ts_add: dst may be a or b. The nanosecond count is that of the sum of the values on entry; the carry
   * loop normalises the result exactly when the nanosecond fields do not add up to a negative number.
   */
  method TsAdd(dst: Cell, a: Cell, b: Cell)
    modifies dst
    ensures Ns(dst.Value()) == old(Ns(a.Value()) + Ns(b.Value()))
    ensures Normal(dst.Value()) <==> old(a.nsec + b.nsec) >= 0
  {
    SumOfBoth(a.Value(), b.Value());
    hide Ns;
    dst.sec := a.sec + b.sec;
    dst.nsec := a.nsec + b.nsec;
    while dst.nsec >= NS_PER_SEC
      invariant 0 <= dst.nsec <==> old(a.nsec + b.nsec) >= 0
      invariant Ns(dst.Value()) == old(Ns(a.Value()) + Ns(b.Value()))
      decreases dst.nsec
    {
      CarrySecond(dst.Value());
      dst.sec := dst.sec + 1;
      dst.nsec := dst.nsec - NS_PER_SEC;
    }
  }

  lemma {:induction false} SumOfBoth(a: Timespec, b: Timespec)
    ensures Ns(Timespec(a.sec + b.sec, a.nsec + b.nsec)) == Ns(a) + Ns(b)
  {
  }

  lemma {:induction false} CarrySecond(t: Timespec)
    ensures Ns(Timespec(t.sec + 1, t.nsec - NS_PER_SEC)) == Ns(t)
  {
  }

  // ---- Round-trip accounting

  /** One answered relay message: the stamp it carried and the receiver's clock. */
  datatype Sample = Sample(stamp: Timespec, received: Timespec)

  predicate Sane(s: Sample) {
    Normal(s.stamp) && Normal(s.received)
  }

  function TotalNs(samples: seq<Sample>): int {
    if samples == [] then 0
    else TotalNs(samples[..|samples| - 1]) + Ns(samples[|samples| - 1].received) - Ns(samples[|samples| - 1].stamp)
  }

  /** A count as a 32-bit unsigned integer holds it. */
  function AsU32(n: nat): (r: nat)
    ensures r < 0x1_0000_0000
    ensures n < 0x1_0000_0000 ==> r == n
  {
    n % 0x1_0000_0000
  }

  class RttStats {
    const sum: Cell
    var cnt: nat

    constructor ()
      ensures fresh(sum) && sum.Value() == ZERO && cnt == 0
    {
      sum := new Cell(ZERO);
      cnt := 0;
    }

    /**
     * One sample: the clock reading is overwritten by its own difference to the stamp, and that is added
     * onto the sum in place, whatever the stamp. The counter is a 32-bit unsigned integer.
     */
    method Record(s: Sample)
      modifies this, sum
      ensures Ns(sum.Value()) == old(Ns(sum.Value())) + Ns(s.received) - Ns(s.stamp)
      ensures old(Normal(sum.Value())) && Sane(s) ==> Normal(sum.Value())
      ensures cnt == AsU32(old(cnt) + 1)
    {
      var stamp := new Cell(s.stamp);
      var ts := new Cell(s.received);
      DiffIsSubtraction(s.stamp, s.received);
      TsDiff(ts, stamp, ts);
      TsAdd(sum, sum, ts);
      cnt := AsU32(cnt + 1);
    }

    /**
     * After any run the sum is the total of (receive - stamp) over the run; it is normalised if all
     * samples are, also where the clock stepped back.
     */
    method RecordAll(samples: seq<Sample>)
      requires sum.Value() == ZERO && cnt == 0
      modifies this, sum
      ensures Ns(sum.Value()) == TotalNs(samples)
      ensures (forall k :: 0 <= k < |samples| ==> Sane(samples[k])) ==> Normal(sum.Value())
      ensures cnt == AsU32(|samples|)
    {
      hide *;
      AccountedNone(samples);
      for k := 0 to |samples|
        invariant Accounted(sum.Value(), cnt, samples, k)
      {
        RecordNext(samples, k);
      }
      AccountedAll(sum.Value(), cnt, samples);
    }

    method RecordNext(samples: seq<Sample>, k: nat)
      requires k < |samples| && Accounted(sum.Value(), cnt, samples, k)
      modifies this, sum
      ensures Accounted(sum.Value(), cnt, samples, k + 1)
    {
      TotalNext(samples, k);
      NextCount(k);
      hide TotalNs, Ns, Normal, AsU32;
      Record(samples[k]);
    }
  }

  /** Sum and count after the first k samples. */
  ghost predicate Accounted(sum: Timespec, cnt: nat, samples: seq<Sample>, k: nat)
    requires k <= |samples|
  {
    && Ns(sum) == TotalNs(samples[..k])
    && ((forall j :: 0 <= j < k ==> Sane(samples[j])) ==> Normal(sum))
    && cnt == AsU32(k)
  }

  lemma {:induction false} AccountedNone(samples: seq<Sample>)
    ensures Accounted(ZERO, 0, samples, 0)
  {
    assert samples[..0] == [];
    NoneRecorded();
    NoneCounted();
    hide TotalNs, Ns, AsU32, Normal;
  }

  lemma {:induction false} NoneRecorded()
    ensures Ns(ZERO) == 0 && Normal(ZERO) && TotalNs([]) == 0
  {
  }

  lemma {:induction false} NoneCounted()
    ensures AsU32(0) == 0
  {
  }

  lemma {:induction false} AccountedAll(sum: Timespec, cnt: nat, samples: seq<Sample>)
    requires Accounted(sum, cnt, samples, |samples|)
    ensures Ns(sum) == TotalNs(samples) && cnt == AsU32(|samples|)
    ensures (forall k :: 0 <= k < |samples| ==> Sane(samples[k])) ==> Normal(sum)
  {
    assert samples[..|samples|] == samples;
  }

  lemma {:induction false} NextCount(k: nat)
    ensures AsU32(AsU32(k) + 1) == AsU32(k + 1)
  {
  }

  lemma {:induction false} TotalNext(samples: seq<Sample>, k: nat)
    requires k < |samples|
    ensures TotalNs(samples[..k + 1]) == TotalNs(samples[..k]) + Ns(samples[k].received) - Ns(samples[k].stamp)
  {
    assert samples[..k + 1][..k] == samples[..k];
  }
}
