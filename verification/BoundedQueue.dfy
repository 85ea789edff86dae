/**
 * The bounded queue between a receiving and a sending thread: sixteen slots, a count, one mutex and two
 * condition variables. First the memory operations, then the two threads as a step system.
 */
module BoundedQueue {

  const MAX_QUEUE := 16

  datatype Option<+T> = None | Some(value: T)

  /**
   * What the clearing store after a pop from a full queue hits. It goes to slot 16, one past the last:
   * Padded when that word belongs to nothing, Adjacent when it is the count itself, as the 64-bit struct
   * layout has it.
   */
  datatype Layout = Padded | Adjacent

  // ---- The memory operations inside the critical sections

  datatype Memory<T> = Memory(slots: seq<Option<T>>, cnt: nat)

  predicate Shaped<T>(m: Memory<T>) {
    && |m.slots| == MAX_QUEUE
    && m.cnt <= MAX_QUEUE
    && forall k :: 0 <= k < m.cnt ==> m.slots[k].Some?
  }

  /** The queued messages, oldest first. */
  function Live<T>(m: Memory<T>): (s: seq<T>)
    requires Shaped(m)
    ensures |s| == m.cnt
    ensures forall k :: 0 <= k < m.cnt ==> m.slots[k] == Some(s[k])
  {
    seq(m.cnt, k requires 0 <= k < m.cnt => m.slots[k].value)
  }

  function Put<T>(m: Memory<T>, x: T): Memory<T>
    requires Shaped(m) && m.cnt < MAX_QUEUE
  {
    Memory(m.slots[m.cnt := Some(x)], m.cnt + 1)
  }

  function Take<T>(m: Memory<T>, layout: Layout): Memory<T>
    requires Shaped(m) && m.cnt > 0
  {
    var c := m.cnt - 1;
    if c + 1 < MAX_QUEUE then Memory(m.slots[c + 1 := None], c)
    else if layout == Adjacent then Memory(m.slots, 0)
    else Memory(m.slots, c)
  }

  /**
   * The queue is a stack: a push goes on top, a pop takes the top, and the clearing store spares the rest. It
   * clears the slot above the popped message, which itself stays behind in its own.
   */
  lemma {:induction false} StackLaws<T>(m: Memory<T>, x: T, layout: Layout)
    requires Shaped(m)
    ensures m.cnt < MAX_QUEUE ==> Shaped(Put(m, x)) && Live(Put(m, x)) == Live(m) + [x]
    ensures 0 < m.cnt < MAX_QUEUE ==>
              Shaped(Take(m, layout)) && Live(Take(m, layout)) == Live(m)[..m.cnt - 1]
    ensures m.cnt == MAX_QUEUE ==>
              Shaped(Take(m, layout))
              && Live(Take(m, layout)) == if layout == Padded then Live(m)[..MAX_QUEUE - 1] else []
    ensures m.cnt + 1 < MAX_QUEUE ==> Live(Take(Put(m, x), layout)) == Live(m)
    ensures 0 < m.cnt < MAX_QUEUE ==>
              && Take(m, layout).slots[m.cnt] == None
              && forall k :: 0 <= k < MAX_QUEUE && k != m.cnt ==> Take(m, layout).slots[k] == m.slots[k]
    ensures m.cnt == MAX_QUEUE ==> Take(m, layout).slots == m.slots
  {
    if m.cnt < MAX_QUEUE {
      assert Live(Put(m, x)) == Live(m) + [x];
    }
    if m.cnt > 0 {
      var t := Take(m, layout);
      assert t.cnt == m.cnt - 1 ==> Live(t) == Live(m)[..m.cnt - 1];
      assert t.cnt == 0 ==> Live(t) == [];
    }
  }

  class Queue<T> {
    const msg: array<Option<T>>
    var cnt: nat

    function State(): Memory<T>
      reads this, msg
    {
      Memory(msg[..], cnt)
    }

    constructor ()
      ensures fresh(msg) && Shaped(State()) && Live(State()) == []
    {
      msg := new Option<T>[MAX_QUEUE](_ => None);
      cnt := 0;
    }

    /** The producer's store, once the wait for room is over. */
    method Push(x: T)
      requires Shaped(State()) && cnt < MAX_QUEUE
      modifies this, msg
      ensures Shaped(State()) && Live(State()) == old(Live(State())) + [x]
      ensures State() == Put(old(State()), x)
    {
      ghost var before := State();
      msg[cnt] := Some(x);
      cnt := cnt + 1;
      StackLaws(before, x, Padded);
    }

    /** The consumer's load and clearing store, once the wait for a message is over. */
    method Pop(layout: Layout) returns (x: T)
      requires Shaped(State()) && cnt > 0
      modifies this, msg
      ensures Shaped(State()) && State() == Take(old(State()), layout)
      ensures x == old(Live(State())[cnt - 1])
      ensures layout == Padded || old(cnt) < MAX_QUEUE ==> Live(State()) == old(Live(State())[..cnt - 1])
    {
      ghost var before := State();
      cnt := cnt - 1;
      x := msg[cnt].value;
      if cnt + 1 < MAX_QUEUE {
        msg[cnt + 1] := None;
      } else if layout == Adjacent {
        cnt := 0;
      }
      StackLaws(before, x, layout);
    }
  }

  // ---- The two threads

  /** Where the producer is; it carries the message it wants to push. */
  datatype Producer<T> =
    | PAway
    | PWants(m: T)
    | PTesting(m: T)
    | PAsleep(m: T)
    | PWoken(m: T)
    | PFilled
    | PSignalled

  datatype Consumer = CAway | CWants | CTesting | CAsleep | CWoken | CEmptied | CSignalled

  datatype Holder = Nobody | Prod | Cons

  /**
   * The shared state, and four history variables: everything pushed and popped so far, the push number
   * of every queued message, and the messages an overrun wiped out.
   */
  datatype System<T> = System(
    mem: Memory<T>, holder: Holder, prod: Producer<T>, cons: Consumer,
    pushed: seq<T>, popped: seq<T>, born: seq<nat>, lost: seq<T>)

  function Start<T>(): System<T> {
    System(Memory(seq(MAX_QUEUE, k => None), 0), Nobody, PAway, CAway, [], [], [], [])
  }

  /** Arrive and the two spurious wake-ups come from outside; the other steps are the threads' own. */
  datatype Event<T> =
    | Arrive(m: T)
    | PLock | PTest | PSignal | PUnlock | PSpurious
    | CGo | CLock | CTest | CSignal | CUnlock | CSpurious

  predicate Enabled<T>(s: System<T>, e: Event<T>) {
    match e
    case Arrive(_) => s.prod.PAway?
    case PLock => (s.prod.PWants? || s.prod.PWoken?) && s.holder == Nobody
    case PTest => s.prod.PTesting?
    case PSignal => s.prod.PFilled?
    case PUnlock => s.prod.PSignalled?
    case PSpurious => s.prod.PAsleep?
    case CGo => s.cons.CAway?
    case CLock => (s.cons.CWants? || s.cons.CWoken?) && s.holder == Nobody
    case CTest => s.cons.CTesting?
    case CSignal => s.cons.CEmptied?
    case CUnlock => s.cons.CSignalled?
    case CSpurious => s.cons.CAsleep?
  }

  predicate Own<T>(e: Event<T>) {
    !e.Arrive? && !e.PSpurious? && !e.CSpurious?
  }

  /** pthread_cond_wait gives the lock up while asleep; a signal moves a sleeper to where it must relock. */
  function Step<T>(layout: Layout, s: System<T>, e: Event<T>): System<T>
    requires Enabled(s, e) && Shaped(s.mem) && |s.born| == s.mem.cnt
  {
    match e
    case Arrive(m) => s.(prod := PWants(m))
    case PLock => s.(holder := Prod, prod := PTesting(s.prod.m))
    case PTest =>
      if s.mem.cnt >= MAX_QUEUE then s.(holder := Nobody, prod := PAsleep(s.prod.m))
      else s.(mem := Put(s.mem, s.prod.m), prod := PFilled,
              pushed := s.pushed + [s.prod.m], born := s.born + [|s.pushed|])
    case PSignal => s.(prod := PSignalled, cons := if s.cons.CAsleep? then CWoken else s.cons)
    case PUnlock => s.(holder := Nobody, prod := PAway)
    case PSpurious => s.(prod := PWoken(s.prod.m))
    case CGo => s.(cons := CWants)
    case CLock => s.(holder := Cons, cons := CTesting)
    case CTest =>
      if s.mem.cnt == 0 then s.(holder := Nobody, cons := CAsleep)
      else
        var m := Take(s.mem, layout);
        s.(mem := m, cons := CEmptied,
           popped := s.popped + [Live(s.mem)[s.mem.cnt - 1]], born := s.born[..m.cnt],
           lost := s.lost + Live(s.mem)[m.cnt..s.mem.cnt - 1])
    case CSignal => s.(cons := CSignalled, prod := if s.prod.PAsleep? then PWoken(s.prod.m) else s.prod)
    case CUnlock => s.(holder := Nobody, cons := CAway)
    case CSpurious => s.(cons := CWoken)
  }

  // ---- What every step keeps

  /** Queued messages are pushed ones, in push order. */
  predicate Queued<T(==)>(s: System<T>) {
    && Shaped(s.mem)
    && |s.born| == s.mem.cnt
    && (forall k :: 0 <= k < s.mem.cnt ==> s.born[k] < |s.pushed| && s.mem.slots[k] == Some(s.pushed[s.born[k]]))
    && (forall j, k :: 0 <= j < k < s.mem.cnt ==> s.born[j] < s.born[k])
  }

  /** Mutual exclusion, and no thread asleep on a condition that holds unless a signal is on its way. */
  predicate Synchronised<T>(s: System<T>) {
    && (s.holder == Prod <==> s.prod.PTesting? || s.prod.PFilled? || s.prod.PSignalled?)
    && (s.holder == Cons <==> s.cons.CTesting? || s.cons.CEmptied? || s.cons.CSignalled?)
    && (s.prod.PAsleep? ==> s.mem.cnt == MAX_QUEUE || s.cons.CEmptied?)
    && (s.cons.CAsleep? ==> s.mem.cnt == 0 || s.prod.PFilled?)
  }

  predicate Inv<T(==)>(s: System<T>) {
    Queued(s) && Synchronised(s)
  }

  lemma {:induction false} StepKeepsQueued<T>(layout: Layout, s: System<T>, e: Event<T>)
    requires Inv(s) && Enabled(s, e)
    ensures Queued(Step(layout, s, e))
  {
  }

  lemma {:induction false} StepKeepsInv<T>(layout: Layout, s: System<T>, e: Event<T>)
    requires Inv(s) && Enabled(s, e)
    ensures Inv(Step(layout, s, e))
  {
    StepKeepsQueued(layout, s, e);
    assert Shaped(s.mem) && |s.born| == s.mem.cnt;
    hide Queued, Live;
  }

  /** The state after a run of events, if each was enabled in its turn; every reachable state keeps Inv. */
  function Exec<T(==)>(layout: Layout, s: System<T>, es: seq<Event<T>>): (r: Option<System<T>>)
    requires Inv(s)
    ensures r.Some? ==> Inv(r.value)
  {
    if es == [] then Some(s)
    else
      var e := es[|es| - 1];
      match Exec(layout, s, es[..|es| - 1])
      case None => None
      case Some(t) =>
        if Enabled(t, e) then
          StepKeepsInv(layout, t, e);
          Some(Step(layout, t, e))
        else None
  }

  /**
   * No lost wake-up and no deadlock, over every run, spurious wake-ups included: the threads are never
   * both asleep, a sleeper's condition is false unless the other thread is about to signal it, and some
   * step of the threads' own is enabled unless the queue is empty, the consumer waits for a message and
   * the producer has none.
   */
  lemma {:induction false} NeverStuck<T>(layout: Layout, es: seq<Event<T>>)
    requires Exec(layout, Start(), es).Some?
    ensures var s := Exec(layout, Start(), es).value;
            && !(s.prod.PAsleep? && s.cons.CAsleep?)
            && (s.prod.PAsleep? ==> s.mem.cnt == 16 || (s.cons.CEmptied? && s.holder == Cons))
            && (s.cons.CAsleep? ==> s.mem.cnt == 0 || (s.prod.PFilled? && s.holder == Prod))
            && ((exists e :: Own(e) && Enabled(s, e)) <==> !(s.prod.PAway? && s.cons.CAsleep? && s.mem.cnt == 0))
  {
    var s := Exec(layout, Start(), es).value;
    OwnStepExists(s);
  }

  predicate Idle<T>(s: System<T>) {
    s.prod.PAway? && s.cons.CAsleep? && s.mem.cnt == 0
  }

  lemma {:induction false} OwnStepExists<T>(s: System<T>)
    requires Inv(s)
    ensures (exists e: Event<T> :: Own(e) && Enabled(s, e)) <==> !Idle(s)
  {
    if s.holder == Prod {
      assert Enabled(s, PTest) || Enabled(s, PSignal) || Enabled(s, PUnlock);
    } else if s.holder == Cons {
      assert Enabled(s, CTest) || Enabled(s, CSignal) || Enabled(s, CUnlock);
    } else if !s.prod.PAway? && !s.prod.PAsleep? {
      assert Enabled(s, PLock);
    } else if !s.cons.CAsleep? {
      assert Enabled(s, CGo) || Enabled(s, CLock);
    }
  }

  // ---- Progress: without new messages and spurious wake-ups the queue drains

  function ProducerRank<T>(p: Producer<T>): nat {
    match p
    case PWants(_) => 5
    case PWoken(_) => 5
    case PTesting(_) => 4
    case PFilled => 3
    case PSignalled => 2
    case PAway => 1
    case PAsleep(_) => 0
  }

  function ConsumerRank(c: Consumer): nat {
    match c
    case CEmptied => 5
    case CSignalled => 4
    case CAway => 3
    case CWants => 2
    case CWoken => 2
    case CTesting => 1
    case CAsleep => 0
  }

  function Carried<T>(p: Producer<T>): nat {
    if p.PWants? || p.PTesting? || p.PAsleep? || p.PWoken? then 1 else 0
  }

  /** Messages outstanding, then a signal still owed, then the threads' positions. */
  function Rank<T>(s: System<T>): nat {
    36 * (2 * (s.mem.cnt + Carried(s.prod)) + (if s.cons.CEmptied? then 1 else 0))
    + 6 * ProducerRank(s.prod) + ConsumerRank(s.cons)
  }

  lemma {:induction false} OwnStepsDescend<T>(layout: Layout, s: System<T>, e: Event<T>)
    requires Inv(s) && Enabled(s, e) && Own(e)
    ensures Rank(Step(layout, s, e)) < Rank(s)
  {
  }

  /**
   * From every reachable state, any run of the threads' own steps is shorter than the rank of that state,
   * and when it can go no further the queue is empty, no message is held back and the consumer waits.
   */
  lemma {:induction false} Drains<T>(layout: Layout, s: System<T>, es: seq<Event<T>>)
    requires Inv(s) && Exec(layout, s, es).Some?
    requires forall k :: 0 <= k < |es| ==> Own(es[k])
    ensures |es| + Rank(Exec(layout, s, es).value) <= Rank(s)
    ensures var t := Exec(layout, s, es).value;
            (forall e :: Own(e) ==> !Enabled(t, e)) <==> Idle(t)
  {
    OwnStepExists(Exec(layout, s, es).value);
    if es != [] {
      var n := |es| - 1;
      Drains(layout, s, es[..n]);
      OwnStepsDescend(layout, Exec(layout, s, es[..n]).value, es[n]);
    }
  }

  // ---- Conservation and order

  /** A step that moves no message. */
  predicate Quiet<T(==)>(s: System<T>, t: System<T>)
    requires Inv(s) && Inv(t)
  {
    && Live(t.mem) == Live(s.mem) && t.born == s.born
    && t.pushed == s.pushed && t.popped == s.popped && t.lost == s.lost
  }

  predicate Pushes<T(==)>(s: System<T>, t: System<T>)
    requires Inv(s) && Inv(t)
  {
    && t.pushed != [] && var m := t.pushed[|t.pushed| - 1];
    && t.pushed == s.pushed + [m] && Live(t.mem) == Live(s.mem) + [m] && t.born == s.born + [|s.pushed|]
    && t.popped == s.popped && t.lost == s.lost
  }

  /** A step that pops the top message and, in an overrun, loses what was below it. */
  predicate Pops<T(==)>(layout: Layout, s: System<T>, t: System<T>)
    requires Inv(s) && Inv(t)
  {
    var q := Live(s.mem);
    && q != [] && t.pushed == s.pushed && t.popped == s.popped + [q[|q| - 1]]
    && t.mem.cnt < s.mem.cnt && t.born == s.born[..t.mem.cnt]
    && s.lost <= t.lost && Live(t.mem) + t.lost[|s.lost|..] == q[..|q| - 1]
    && |t.lost| == |s.lost| + if layout == Adjacent && |q| == MAX_QUEUE then MAX_QUEUE - 1 else 0
  }

  /** What one step does to the queued messages and the logs. */
  lemma {:induction false} StepLogs<T>(layout: Layout, s: System<T>, e: Event<T>)
    requires Inv(s) && Enabled(s, e)
    ensures Inv(Step(layout, s, e))
    ensures var t := Step(layout, s, e);
            if e.PTest? && s.mem.cnt < MAX_QUEUE then Pushes(s, t)
            else if e.CTest? && s.mem.cnt > 0 then Pops(layout, s, t)
            else Quiet(s, t)
  {
    StepKeepsInv(layout, s, e);
    var t := Step(layout, s, e);
    if e.PTest? && s.mem.cnt < MAX_QUEUE {
      StackLaws(s.mem, s.prod.m, layout);
      assert Live(t.mem) == Live(s.mem) + [s.prod.m];
    } else if e.CTest? && s.mem.cnt > 0 {
      TakeSplits(s.mem, layout);
      assert t.lost[|s.lost|..] == Live(s.mem)[t.mem.cnt..s.mem.cnt - 1];
    }
  }

  lemma {:induction false} TakeSplits<T>(m: Memory<T>, layout: Layout)
    requires Shaped(m) && m.cnt > 0
    ensures Shaped(Take(m, layout)) && Take(m, layout).cnt < m.cnt
    ensures Live(Take(m, layout)) + Live(m)[Take(m, layout).cnt..m.cnt - 1] == Live(m)[..m.cnt - 1]
  {
    assert Live(Take(m, layout)) == Live(m)[..Take(m, layout).cnt];
  }

  ghost predicate Accounted<T>(s: System<T>)
    requires Inv(s)
  {
    multiset(s.pushed) == multiset(s.popped) + multiset(Live(s.mem)) + multiset(s.lost)
  }

  lemma {:induction false} BagOfConcat<T>(a: seq<T>, b: seq<T>)
    ensures multiset(a + b) == multiset(a) + multiset(b)
  {
  }

  lemma {:induction false} PopAccounts<T>(q: seq<T>, q': seq<T>, dropped: seq<T>)
    requires q != [] && q' + dropped == q[..|q| - 1]
    ensures multiset(q) == multiset(q') + multiset(dropped) + multiset([q[|q| - 1]])
  {
    assert q == q' + dropped + [q[|q| - 1]];
    BagOfConcat(q' + dropped, [q[|q| - 1]]);
    BagOfConcat(q', dropped);
  }

  lemma {:induction false} StepAccounts<T>(layout: Layout, s: System<T>, e: Event<T>)
    requires Inv(s) && Enabled(s, e) && Accounted(s)
    ensures Inv(Step(layout, s, e)) && Accounted(Step(layout, s, e))
  {
    StepLogs(layout, s, e);
    var t := Step(layout, s, e);
    hide *;
    if e.PTest? && s.mem.cnt < MAX_QUEUE {
      PushBalances(s, t);
    } else if e.CTest? && s.mem.cnt > 0 {
      PopBalances(layout, s, t);
    } else {
      QuietBalances(s, t);
    }
  }

  lemma {:induction false} QuietBalances<T>(s: System<T>, t: System<T>)
    requires Inv(s) && Inv(t) && Accounted(s) && Quiet(s, t)
    ensures Accounted(t)
  {
  }

  lemma {:induction false} PushBalances<T>(s: System<T>, t: System<T>)
    requires Inv(s) && Inv(t) && Accounted(s) && Pushes(s, t)
    ensures Accounted(t)
  {
    var m := t.pushed[|t.pushed| - 1];
    var q, q' := Live(s.mem), Live(t.mem);
    hide Inv, Live;
    BagOfConcat(s.pushed, [m]);
    BagOfConcat(q, [m]);
    assert multiset(q') == multiset(q) + multiset([m]);
  }

  lemma {:induction false} PopBalances<T>(layout: Layout, s: System<T>, t: System<T>)
    requires Inv(s) && Inv(t) && Accounted(s) && Pops(layout, s, t)
    ensures Accounted(t)
  {
    var q, q', dropped := Live(s.mem), Live(t.mem), t.lost[|s.lost|..];
    hide Inv, Live;
    PopAccounts(q, q', dropped);
    BagOfConcat(s.popped, [q[|q| - 1]]);
    BagOfConcat(s.lost, dropped);
    assert t.lost == s.lost + dropped;
    assert multiset(s.pushed) == multiset(s.popped) + (multiset(q') + multiset(dropped) + multiset([q[|q| - 1]])) + multiset(s.lost);
  }

  /** How many pops of the run found the queue full. */
  function FullPops<T(==)>(layout: Layout, s: System<T>, es: seq<Event<T>>): nat
    requires Inv(s) && Exec(layout, s, es).Some?
  {
    if es == [] then 0
    else
      var t := Exec(layout, s, es[..|es| - 1]).value;
      FullPops(layout, s, es[..|es| - 1])
      + if es[|es| - 1].CTest? && t.mem.cnt == 16 then 1 else 0
  }

  lemma {:induction false} RunAccounts<T>(layout: Layout, es: seq<Event<T>>)
    requires Exec(layout, Start(), es).Some?
    ensures var s := Exec(layout, Start(), es).value;
            Accounted(s) && |s.lost| == if layout == Padded then 0 else (MAX_QUEUE - 1) * FullPops(layout, Start(), es)
  {
    if es != [] {
      var n := |es| - 1;
      LastPop(layout, es);
      RunAccounts(layout, es[..n]);
      var s := Exec(layout, Start(), es[..n]).value;
      hide *;
      StepAccounts(layout, s, es[n]);
      StepLoses(layout, s, es[n]);
      LossStep(layout, FullPops(layout, Start(), es[..n]), es[n].CTest? && s.mem.cnt == MAX_QUEUE);
    }
  }

  lemma {:induction false} LossStep(layout: Layout, pops: nat, full: bool)
    ensures (if layout == Padded then 0 else (MAX_QUEUE - 1) * (pops + if full then 1 else 0))
            == (if layout == Padded then 0 else (MAX_QUEUE - 1) * pops)
               + if layout == Adjacent && full then MAX_QUEUE - 1 else 0
  {
  }

  lemma {:induction false} LastPop<T>(layout: Layout, es: seq<Event<T>>)
    requires es != [] && Exec(layout, Start(), es).Some?
    ensures var n := |es| - 1;
            && Exec(layout, Start(), es[..n]).Some?
            && var s := Exec(layout, Start(), es[..n]).value;
               && Enabled(s, es[n]) && Exec(layout, Start(), es) == Some(Step(layout, s, es[n]))
               && FullPops(layout, Start(), es)
                  == FullPops(layout, Start(), es[..n]) + if es[n].CTest? && s.mem.cnt == MAX_QUEUE then 1 else 0
  {
    hide Enabled, Step, Inv;
  }

  lemma {:induction false} StepLoses<T>(layout: Layout, s: System<T>, e: Event<T>)
    requires Inv(s) && Enabled(s, e)
    ensures |Step(layout, s, e).lost| == |s.lost|
            + if layout == Adjacent && e.CTest? && s.mem.cnt == MAX_QUEUE then MAX_QUEUE - 1 else 0
  {
    StepLogs(layout, s, e);
    assert |Live(s.mem)| == s.mem.cnt;
    hide Step, Inv, Live;
  }

  /**
   * Conservation, over every run: what was pushed is what was popped plus what is queued, exactly when
   * the clearing store is harmless or no pop ever found the queue full.
   */
  lemma {:induction false} Conserved<T>(layout: Layout, es: seq<Event<T>>)
    requires Exec(layout, Start(), es).Some?
    ensures var s := Exec(layout, Start(), es).value;
            multiset(s.pushed) == multiset(s.popped) + multiset(Live(s.mem))
            <==> layout == Padded || FullPops(layout, Start(), es) == 0
  {
    RunAccounts(layout, es);
    var s := Exec(layout, Start(), es).value;
    if s.lost != [] {
      assert s.lost[0] in multiset(s.lost);
      var kept := multiset(s.popped) + multiset(Live(s.mem));
      assert multiset(s.pushed)[s.lost[0]] > kept[s.lost[0]];
    } else {
      assert multiset(s.lost) == multiset{};
    }
  }

  /**
   * Stack order, over every continuation: of the messages queued at some point, those still queued later
   * are the earliest ones, in the same order, below messages pushed since. So of two messages queued
   * together the later one leaves first.
   */
  lemma {:induction false} LaterLeavesFirst<T>(layout: Layout, s: System<T>, es: seq<Event<T>>) returns (kept: nat)
    requires Inv(s) && Exec(layout, s, es).Some?
    ensures StackAbove(s, Exec(layout, s, es).value, kept)
  {
    if es == [] {
      kept := |s.born|;
    } else {
      var n := |es| - 1;
      kept := LaterLeavesFirst(layout, s, es[..n]);
      var u := Exec(layout, s, es[..n]).value;
      kept := StepStacks(layout, s, u, es[n], kept);
    }
  }

  /** Of what was queued in s, t still queues exactly the first kept messages, below newer ones. */
  predicate StackAbove<T(==)>(s: System<T>, t: System<T>, kept: nat) {
    && kept <= |s.born| && kept <= |t.born|
    && t.born[..kept] == s.born[..kept]
    && |s.pushed| <= |t.pushed|
    && forall k :: kept <= k < |t.born| ==> t.born[k] >= |s.pushed|
  }

  lemma {:induction false} StepStacks<T>(layout: Layout, s: System<T>, u: System<T>, e: Event<T>, kept: nat)
    returns (kept': nat)
    requires Inv(u) && Enabled(u, e) && StackAbove(s, u, kept)
    ensures StackAbove(s, Step(layout, u, e), kept')
  {
    StepLogs(layout, u, e);
    var t := Step(layout, u, e);
    hide *;
    if e.CTest? && u.mem.cnt > 0 {
      kept' := if t.mem.cnt < kept then t.mem.cnt else kept;
      StackPops(layout, s, u, t, kept);
    } else {
      kept' := kept;
      if e.PTest? && u.mem.cnt < MAX_QUEUE {
        StackPushes(s, u, t, kept);
      } else {
        StackQuiet(s, u, t, kept);
      }
    }
  }

  lemma {:induction false} StackPops<T>(layout: Layout, s: System<T>, u: System<T>, t: System<T>, kept: nat)
    requires Inv(u) && Inv(t) && Pops(layout, u, t) && StackAbove(s, u, kept)
    ensures StackAbove(s, t, if t.mem.cnt < kept then t.mem.cnt else kept)
  {
    assert |u.born| == u.mem.cnt && |t.born| == t.mem.cnt;
    hide Inv, Live;
    var k := if t.mem.cnt < kept then t.mem.cnt else kept;
    assert u.born[..k] == u.born[..kept][..k] && s.born[..k] == s.born[..kept][..k];
    assert t.born[..k] == u.born[..k];
  }

  lemma {:induction false} StackPushes<T>(s: System<T>, u: System<T>, t: System<T>, kept: nat)
    requires Inv(u) && Inv(t) && Pushes(u, t) && StackAbove(s, u, kept)
    ensures StackAbove(s, t, kept)
  {
    hide Inv, Live;
    assert t.born[..kept] == u.born[..kept];
  }

  lemma {:induction false} StackQuiet<T>(s: System<T>, u: System<T>, t: System<T>, kept: nat)
    requires Inv(u) && Inv(t) && Quiet(u, t) && StackAbove(s, u, kept)
    ensures StackAbove(s, t, kept)
  {
    hide Inv, Live;
  }

  /** The push numbers of the popped messages, in the order of the pops. */
  function Order<T(==)>(layout: Layout, es: seq<Event<T>>): seq<nat>
    requires Exec(layout, Start(), es).Some?
  {
    if es == [] then []
    else
      var n := |es| - 1;
      var s := Exec(layout, Start(), es[..n]).value;
      Order(layout, es[..n]) + Popped(s, es[n])
  }

  predicate Ascending(order: seq<nat>) {
    forall k :: 0 <= k < |order| ==> order[k] == k
  }

  /** No pop of the run found two messages queued. */
  predicate SinglePops<T(==)>(layout: Layout, es: seq<Event<T>>)
    requires Exec(layout, Start(), es).Some?
  {
    es == []
    || (&& SinglePops(layout, es[..|es| - 1])
        && (es[|es| - 1].CTest? ==> Exec(layout, Start(), es[..|es| - 1]).value.mem.cnt <= 1))
  }

  /** What is queued is what was pushed after the first n messages, in push order. */
  predicate InLine<T(==)>(s: System<T>, n: nat) {
    && Inv(s) && |s.pushed| == n + s.mem.cnt
    && (forall k :: 0 <= k < s.mem.cnt ==> s.born[k] == n + k)
    && s.popped + Live(s.mem) == s.pushed
  }

  /**
   * First in, first out, over every run: the messages are popped in push order exactly when no pop finds
   * two of them queued; then nothing is lost, and what was pushed is what was popped followed by the queue.
   */
  lemma {:induction false} SinglesInOrder<T>(layout: Layout, es: seq<Event<T>>)
    requires Exec(layout, Start(), es).Some?
    ensures Ascending(Order(layout, es)) <==> SinglePops(layout, es)
    ensures SinglePops(layout, es) ==>
              var s := Exec(layout, Start(), es).value;
              s.popped + Live(s.mem) == s.pushed && |Order(layout, es)| == |s.popped|
  {
    OrderDecides(layout, es);
  }

  lemma {:induction false} OrderDecides<T>(layout: Layout, es: seq<Event<T>>)
    requires Exec(layout, Start(), es).Some?
    ensures Ascending(Order(layout, es)) <==> SinglePops(layout, es)
    ensures var s := Exec(layout, Start(), es).value;
            && |Order(layout, es)| == |s.popped|
            && (SinglePops(layout, es) ==> InLine(s, |Order(layout, es)|))
  {
    if es != [] {
      var n := |es| - 1;
      LastEvent(layout, es);
      OrderDecides(layout, es[..n]);
      hide *;
      OrderStep(layout, Exec(layout, Start(), es[..n]).value, es[n], Order(layout, es[..n]), SinglePops(layout, es[..n]));
    }
  }

  lemma {:induction false} OrderStep<T>(layout: Layout, s: System<T>, e: Event<T>, order: seq<nat>, singles: bool)
    requires Inv(s) && Enabled(s, e)
    requires |order| == |s.popped| && (Ascending(order) <==> singles) && (singles ==> InLine(s, |order|))
    ensures Inv(Step(layout, s, e))
    ensures var t, order', singles' := Step(layout, s, e), order + Popped(s, e), singles && (e.CTest? ==> s.mem.cnt <= 1);
            |order'| == |t.popped| && (Ascending(order') <==> singles') && (singles' ==> InLine(t, |order'|))
  {
    StepKeepsInv(layout, s, e);
    hide Inv, Enabled, Step, InLine, Ascending, Popped;
    OrderGrows(order, order + Popped(s, e));
    PoppedGrows(layout, s, e);
    if singles {
      InLineStep(layout, s, e, |order|);
    }
  }

  /** What a pop finds on top. */
  function Popped<T(==)>(s: System<T>, e: Event<T>): seq<nat>
    requires Inv(s)
  {
    if e.CTest? && s.mem.cnt > 0 then [s.born[s.mem.cnt - 1]] else []
  }

  lemma {:induction false} LastEvent<T>(layout: Layout, es: seq<Event<T>>)
    requires es != [] && Exec(layout, Start(), es).Some?
    ensures var n := |es| - 1;
            && Exec(layout, Start(), es[..n]).Some?
            && var s := Exec(layout, Start(), es[..n]).value;
               && Enabled(s, es[n]) && Exec(layout, Start(), es) == Some(Step(layout, s, es[n]))
               && Order(layout, es) == Order(layout, es[..n]) + Popped(s, es[n])
               && (SinglePops(layout, es) <==> SinglePops(layout, es[..n]) && (es[n].CTest? ==> s.mem.cnt <= 1))
  {
    hide Enabled, Step, Inv;
  }

  lemma {:induction false} PoppedGrows<T>(layout: Layout, s: System<T>, e: Event<T>)
    requires Inv(s) && Enabled(s, e)
    ensures |Step(layout, s, e).popped| == |s.popped| + |Popped(s, e)| && |Popped(s, e)| <= 1
  {
    StepLogs(layout, s, e);
    hide Step, Inv, Live;
  }

  lemma {:induction false} OrderGrows(a: seq<nat>, b: seq<nat>)
    requires a <= b && |b| <= |a| + 1
    ensures Ascending(b) <==> Ascending(a) && (|b| == |a| + 1 ==> b[|a|] == |a|)
  {
  }

  lemma {:induction false} InLineStep<T>(layout: Layout, s: System<T>, e: Event<T>, n: nat)
    requires Enabled(s, e) && InLine(s, n)
    ensures var t, top := Step(layout, s, e), Popped(s, e);
            && |top| <= 1
            && (top != [] ==> (top[0] == n <==> s.mem.cnt == 1))
            && (e.CTest? ==> (top == [] <==> s.mem.cnt == 0)) && (top != [] ==> e.CTest?)
            && (top == [] || s.mem.cnt == 1 ==> InLine(t, n + |top|))
  {
    hide *;
    TopInLine(s, e, n);
    StepLogs(layout, s, e);
    var t := Step(layout, s, e);
    if e.CTest? && s.mem.cnt > 0 {
      if s.mem.cnt == 1 {
        PopInLine(layout, s, t, n);
      }
    } else if e.PTest? && s.mem.cnt < MAX_QUEUE {
      PushInLine(s, t, n);
    } else {
      QuietInLine(s, t, n);
    }
  }

  lemma {:induction false} TopInLine<T>(s: System<T>, e: Event<T>, n: nat)
    requires InLine(s, n)
    ensures Inv(s) && Shaped(s.mem) && |s.born| == s.mem.cnt
    ensures Popped(s, e) == if e.CTest? && s.mem.cnt > 0 then [n + s.mem.cnt - 1] else []
  {
    hide Live, Synchronised;
  }

  lemma {:induction false} PopInLine<T>(layout: Layout, s: System<T>, t: System<T>, n: nat)
    requires InLine(s, n) && Inv(t) && Pops(layout, s, t) && s.mem.cnt == 1
    ensures InLine(t, n + 1)
  {
    var q, q' := Live(s.mem), Live(t.mem);
    assert |q| == 1 && |q'| == 0;
    hide Inv, Live;
    assert q == [q[0]] && q' == [];
  }

  lemma {:induction false} PushInLine<T>(s: System<T>, t: System<T>, n: nat)
    requires InLine(s, n) && Inv(t) && Pushes(s, t)
    ensures InLine(t, n)
  {
    assert |Live(t.mem)| == t.mem.cnt && |Live(s.mem)| == s.mem.cnt && |s.born| == s.mem.cnt;
    hide Inv, Live;
  }

  lemma {:induction false} QuietInLine<T>(s: System<T>, t: System<T>, n: nat)
    requires InLine(s, n) && Inv(t) && Quiet(s, t)
    ensures InLine(t, n)
  {
    assert |Live(t.mem)| == t.mem.cnt && |Live(s.mem)| == s.mem.cnt;
    hide Inv, Live;
  }

  /** A run with the pops it made so far, one event longer. */
  lemma {:induction false} ExecSnoc<T>(layout: Layout, es: seq<Event<T>>, e: Event<T>)
    requires Exec(layout, Start(), es).Some? && Enabled(Exec(layout, Start(), es).value, e)
    ensures var s := Exec(layout, Start(), es).value;
            Exec(layout, Start(), es + [e]) == Some(Step(layout, s, e))
            && Order(layout, es + [e]) == Order(layout, es) + Popped(s, e)
  {
    hide Enabled, Step, Inv;
    assert (es + [e])[..|es|] == es;
  }

  /** Both threads away, the lock free, the messages ms queued, none popped. */
  predicate Filled<T(==)>(s: System<T>, ms: seq<T>)
    requires Inv(s)
  {
    && s.prod.PAway? && s.cons.CAway? && s.holder == Nobody
    && Live(s.mem) == s.pushed == ms && s.popped == [] && s.lost == []
  }

  lemma {:induction false} StartKeepsInv<T>()
    ensures Inv(Start<T>())
  {
  }

  lemma {:induction false} StartFilled<T>(layout: Layout)
    ensures Filled<T>(Start(), []) && Order<T>(layout, []) == []
  {
  }

  /** A run that queues the messages ms. */
  lemma {:induction false} FillBy<T>(layout: Layout, ms: seq<T>) returns (es: seq<Event<T>>)
    requires |ms| <= MAX_QUEUE
    ensures Exec(layout, Start(), es).Some? && Filled(Exec(layout, Start(), es).value, ms)
    ensures Order(layout, es) == []
  {
    es := [];
    StartKeepsInv<T>();
    StartFilled<T>(layout);
    hide Start, Step, Enabled, Inv, Filled, Order, Popped;
    if ms != [] {
      hide *;
      var n := |ms| - 1;
      es := FillBy(layout, ms[..n]);
      PushEnter(layout, Exec(layout, Start(), es).value, ms[..n], ms[n]);
      ExecSnoc(layout, es, Arrive(ms[n])); es := es + [Arrive(ms[n])];
      ExecSnoc(layout, es, PLock); es := es + [PLock];
      PushStore(layout, Exec(layout, Start(), es).value, ms[..n], ms[n]);
      ExecSnoc(layout, es, PTest); es := es + [PTest];
      PushLeave(layout, Exec(layout, Start(), es).value, ms[..n] + [ms[n]]);
      ExecSnoc(layout, es, PSignal); es := es + [PSignal];
      ExecSnoc(layout, es, PUnlock); es := es + [PUnlock];
      assert ms[..n] + [ms[n]] == ms;
    }
  }

  /** The producer holds the lock: it is about to push m on top of ms, or has just queued ms. */
  predicate Pushing<T(==)>(s: System<T>, p: Producer<T>, ms: seq<T>)
    requires Inv(s)
  {
    s.prod == p && s.cons.CAway? && Live(s.mem) == s.pushed == ms && s.popped == [] && s.lost == []
  }

  lemma {:induction false} PushEnter<T>(layout: Layout, s: System<T>, ms: seq<T>, m: T)
    requires Inv(s) && Filled(s, ms)
    ensures Enabled(s, Arrive(m)) && Popped(s, Arrive(m)) == []
    ensures var s1 := Step(layout, s, Arrive(m));
            && Inv(s1) && Enabled(s1, PLock) && Popped(s1, PLock) == []
            && Inv(Step(layout, s1, PLock)) && Pushing(Step(layout, s1, PLock), PTesting(m), ms)
  {
    var s1 := s.(prod := PWants(m));
    assert Step(layout, s, Arrive(m)) == s1;
    StepKeepsInv(layout, s, Arrive(m));
    StepKeepsInv(layout, s1, PLock);
    hide Queued;
  }

  lemma {:induction false} PushStore<T>(layout: Layout, s: System<T>, ms: seq<T>, m: T)
    requires Inv(s) && Pushing(s, PTesting(m), ms) && |ms| < MAX_QUEUE
    ensures Enabled(s, PTest) && Popped(s, PTest) == []
    ensures var t := Step(layout, s, PTest); Inv(t) && Pushing(t, PFilled, ms + [m])
  {
    assert |Live(s.mem)| == s.mem.cnt;
    StepLogs(layout, s, PTest);
    hide Inv, Live, Put;
  }

  lemma {:induction false} PushLeave<T>(layout: Layout, s: System<T>, ms: seq<T>)
    requires Inv(s) && Pushing(s, PFilled, ms)
    ensures Enabled(s, PSignal) && Popped(s, PSignal) == []
    ensures var s1 := Step(layout, s, PSignal);
            && Inv(s1) && Enabled(s1, PUnlock) && Popped(s1, PUnlock) == []
            && Inv(Step(layout, s1, PUnlock)) && Filled(Step(layout, s1, PUnlock), ms)
  {
    var s1 := s.(prod := PSignalled);
    assert Step(layout, s, PSignal) == s1;
    StepKeepsInv(layout, s, PSignal);
    StepKeepsInv(layout, s1, PUnlock);
    hide Queued;
  }

  /** The consumer holds the lock and is about to find the messages ms. */
  predicate Facing<T(==)>(s: System<T>, ms: seq<T>)
    requires Inv(s)
  {
    s.cons.CTesting? && Live(s.mem) == s.pushed == ms && s.popped == [] && s.lost == []
  }

  lemma {:induction false} LockSteps<T>(layout: Layout, s: System<T>, ms: seq<T>)
    requires Inv(s) && Filled(s, ms)
    ensures Enabled(s, CGo) && Popped(s, CGo) == []
    ensures var s1 := Step(layout, s, CGo);
            && Inv(s1) && Enabled(s1, CLock) && Popped(s1, CLock) == []
            && Inv(Step(layout, s1, CLock)) && Facing(Step(layout, s1, CLock), ms)
  {
    var s1 := s.(cons := CWants);
    assert Step(layout, s, CGo) == s1;
    StepKeepsInv(layout, s, CGo);
    StepKeepsInv(layout, s1, CLock);
    hide Queued;
  }

  lemma {:induction false} PopStep<T>(layout: Layout, s: System<T>, ms: seq<T>)
    requires Inv(s) && Facing(s, ms) && ms != []
    ensures Enabled(s, CTest) && Popped(s, CTest) == [|ms| - 1]
    ensures var t, n := Step(layout, s, CTest), |ms| - 1;
            && Inv(t) && t.pushed == ms && t.popped == [ms[n]]
            && (layout == Adjacent && |ms| == MAX_QUEUE ==> t.mem.cnt == 0 && t.lost == ms[..n])
  {
    FacingTop(s, ms);
    StepLogs(layout, s, CTest);
    hide Inv, Live, Pops, Step;
    OneMorePopped(layout, s, Step(layout, s, CTest), ms);
  }

  lemma {:induction false} FacingTop<T>(s: System<T>, ms: seq<T>)
    requires Inv(s) && Facing(s, ms) && ms != []
    ensures s.mem.cnt == |ms| && s.born[s.mem.cnt - 1] == |ms| - 1
  {
    assert |Live(s.mem)| == s.mem.cnt;
    TopIsLast(s);
  }

  lemma {:induction false} OneMorePopped<T>(layout: Layout, s: System<T>, t: System<T>, ms: seq<T>)
    requires Inv(s) && Inv(t) && Pops(layout, s, t) && Live(s.mem) == s.pushed == ms && s.popped == [] && s.lost == []
    ensures t.pushed == ms && t.popped == [ms[|ms| - 1]]
    ensures layout == Adjacent && |ms| == MAX_QUEUE ==> t.mem.cnt == 0 && t.lost == ms[..|ms| - 1]
  {
    hide *;
    PopsParts(layout, s, t, ms);
    WhatIsLeft(Live(t.mem), s.lost, t.lost, ms[..|ms| - 1]);
  }

  lemma {:induction false} PopsParts<T>(layout: Layout, s: System<T>, t: System<T>, q: seq<T>)
    requires Inv(s) && Inv(t) && Pops(layout, s, t) && Live(s.mem) == q
    ensures Shaped(t.mem) && q != [] && t.pushed == s.pushed && t.popped == s.popped + [q[|q| - 1]]
    ensures |s.lost| <= |t.lost| && Live(t.mem) + t.lost[|s.lost|..] == q[..|q| - 1] && |Live(t.mem)| == t.mem.cnt
    ensures layout == Adjacent && |q| == MAX_QUEUE ==> |t.lost| == |s.lost| + |q| - 1
  {
    assert Shaped(t.mem) && |Live(t.mem)| == t.mem.cnt;
    hide Inv, Live;
  }

  lemma {:induction false} WhatIsLeft<T>(rest: seq<T>, before: seq<T>, lost: seq<T>, all: seq<T>)
    requires before == [] && rest + lost[|before|..] == all
    ensures |lost| == |all| ==> rest == [] && lost == all
  {
    assert lost[0..] == lost;
    if |lost| == |all| {
      assert |rest| == 0;
    }
  }

  /** The consumer's next pop after such a run. */
  lemma {:induction false} PopRun<T>(layout: Layout, run: seq<Event<T>>, ms: seq<T>) returns (es: seq<Event<T>>)
    requires ms != [] && Exec(layout, Start(), run).Some? && Filled(Exec(layout, Start(), run).value, ms)
    requires Order(layout, run) == []
    ensures Exec(layout, Start(), es).Some?
    ensures var s, n := Exec(layout, Start(), es).value, |ms| - 1;
            && s.pushed == ms && s.popped == [ms[n]] && Order(layout, es) == [n]
            && (layout == Adjacent && |ms| == MAX_QUEUE ==> s.mem.cnt == 0 && s.lost == ms[..n])
  {
    StartKeepsInv<T>();
    hide *;
    es := run;
    LockSteps(layout, Exec(layout, Start(), es).value, ms);
    ExecSnoc(layout, es, CGo); es := es + [CGo];
    ExecSnoc(layout, es, CLock); es := es + [CLock];
    PopStep(layout, Exec(layout, Start(), es).value, ms);
    ExecSnoc(layout, es, CTest); es := es + [CTest];
  }

  lemma {:induction false} TopIsLast<T>(s: System<T>)
    requires Inv(s) && s.mem.cnt > 0 && |s.pushed| == s.mem.cnt
    ensures s.born[s.mem.cnt - 1] == s.mem.cnt - 1
  {
    BornAtLeast(s, s.mem.cnt - 1);
  }

  lemma {:induction false} BornAtLeast<T>(s: System<T>, k: nat)
    requires Inv(s) && k < s.mem.cnt
    ensures s.born[k] >= k
  {
    if k > 0 {
      BornAtLeast(s, k - 1);
    }
  }

  /** Out of order: two messages are pushed, and the second is popped first. */
  lemma {:induction false} SecondLeavesFirst<T>(layout: Layout, a: T, b: T) returns (es: seq<Event<T>>)
    ensures Exec(layout, Start(), es).Some?
    ensures var s := Exec(layout, Start(), es).value;
            s.pushed == [a, b] && s.popped == [b] && Order(layout, es) == [1]
  {
    es := FillBy(layout, [a, b]);
    es := PopRun(layout, es, [a, b]);
  }

  /** With the count next to the slots, a run exists whose only pop wipes out the fifteen other messages. */
  lemma {:induction false} OverrunLosesFifteen<T>(ms: seq<T>) returns (es: seq<Event<T>>)
    requires |ms| == 16
    ensures Exec(Adjacent, Start(), es).Some?
    ensures var s := Exec(Adjacent, Start(), es).value;
            s.pushed == ms && s.popped == [ms[15]] && s.mem.cnt == 0 && s.lost == ms[..15]
  {
    es := FillBy(Adjacent, ms);
    es := PopRun(Adjacent, es, ms);
  }
}
