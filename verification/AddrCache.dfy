/** The relay's cache of return addresses: sixteen slots, filled in order of first use, never emptied. */
module AddrCache {
  import opened Bytes

  const MAX_ADDR_CACHE := 16

  /** A return address; port and address are kept in network byte order, and port 0 marks a free slot. */
  datatype Peer = Peer(addr: U32, port: U16)

  const FREE := Peer(0, 0)

  datatype Slot = Missing | At(index: nat)

  /** The distinct peers of a list of lookups, in order of first appearance. */
  function FirstSeen(ps: seq<Peer>): seq<Peer> {
    if ps == [] then [] else Note(FirstSeen(ps[..|ps| - 1]), ps[|ps| - 1])
  }

  function Note(seen: seq<Peer>, p: Peer): seq<Peer> {
    if p in seen then seen else seen + [p]
  }

  predicate Listed(seen: seq<Peer>) {
    && (forall i :: 0 <= i < |seen| ==> seen[i].port != 0)
    && forall i, j :: 0 <= i < j < |seen| ==> seen[i] != seen[j]
  }

  /** The cache contents that go with the peers seen so far: the first sixteen of them. */
  predicate Holds(slots: seq<Peer>, seen: seq<Peer>) {
    && |slots| == MAX_ADDR_CACHE
    && forall i :: 0 <= i < MAX_ADDR_CACHE ==> slots[i] == if i < |seen| then seen[i] else FREE
  }

  /** Where p belongs: its rank among the distinct peers, if that is one of the sixteen slots. */
  predicate Answers(slot: Slot, seen: seq<Peer>, p: Peer) {
    exists i :: 0 <= i < |seen| && seen[i] == p && slot == (if i < MAX_ADDR_CACHE then At(i) else Missing)
  }

  class Cache {
    const slots: array<Peer>

    constructor ()
      ensures fresh(slots) && Holds(slots[..], [])
    {
      slots := new Peer[MAX_ADDR_CACHE](_ => FREE);
    }

    /** get_addr: the slot of a known peer, else the first free slot, taken for it, else nothing. */
    method GetAddr(p: Peer, ghost seen: seq<Peer>) returns (slot: Slot)
      requires p.port != 0 && Listed(seen) && Holds(slots[..], seen)
      modifies slots
      ensures Listed(Note(seen, p)) && Holds(slots[..], Note(seen, p))
      ensures Answers(slot, Note(seen, p), p)
    {
      ghost var next := Note(seen, p);
      for i := 0 to MAX_ADDR_CACHE
        invariant forall k :: 0 <= k < i ==> slots[k] != p
        invariant slots[..] == old(slots[..])
      {
        if slots[i] == p {
          assert seen[i] == p;
          return At(i);
        }
      }
      for i := 0 to MAX_ADDR_CACHE
        invariant forall k :: 0 <= k < i ==> slots[k].port != 0
        invariant slots[..] == old(slots[..])
      {
        if slots[i].port == 0 {
          assert i == |seen| by {
            assert forall k :: 0 <= k < |seen| && k < MAX_ADDR_CACHE ==> slots[k] == seen[k];
            assert i > 0 ==> slots[i - 1].port != 0;
          }
          slots[i] := p;
          assert p !in seen;
          assert next[i] == p;
          return At(i);
        }
      }
      assert |seen| >= MAX_ADDR_CACHE by {
        assert slots[MAX_ADDR_CACHE - 1].port != 0;
      }
      assert forall k :: 0 <= k < MAX_ADDR_CACHE ==> slots[k] == seen[k] && next[k] == seen[k];
      ghost var r :| 0 <= r < |next| && next[r] == p;
      return Missing;
    }

    /** Over any run of lookups: every answer is the rank of its peer among the distinct peers so far. */
    method GetAll(ps: seq<Peer>) returns (out: seq<Slot>)
      requires forall i :: 0 <= i < |ps| ==> ps[i].port != 0
      requires Holds(slots[..], [])
      modifies slots
      ensures |out| == |ps| && Holds(slots[..], FirstSeen(ps))
      ensures forall i :: 0 <= i < |ps| ==> Answers(out[i], FirstSeen(ps), ps[i])
    {
      hide Answers, Note;
      out := [];
      assert ps[..0] == [];
      for k := 0 to |ps|
        invariant |out| == k && Listed(FirstSeen(ps[..k])) && Holds(slots[..], FirstSeen(ps[..k]))
        invariant forall i :: 0 <= i < k ==> Answers(out[i], FirstSeen(ps[..k]), ps[i])
      {
        ghost var seen := FirstSeen(ps[..k]);
        assert ps[..k + 1][..k] == ps[..k];
        var slot := GetAddr(ps[k], seen);
        forall i | 0 <= i < k ensures Answers(out[i], Note(seen, ps[k]), ps[i]) {
          AnswersStay(out[i], seen, ps[i], ps[k]);
        }
        out := out + [slot];
      }
      assert ps[..|ps|] == ps;
    }
  }

  lemma {:induction false} AnswersStay(slot: Slot, seen: seq<Peer>, p: Peer, q: Peer)
    requires Answers(slot, seen, p)
    ensures Answers(slot, Note(seen, q), p)
  {
    var i :| 0 <= i < |seen| && seen[i] == p && slot == (if i < MAX_ADDR_CACHE then At(i) else Missing);
    assert Note(seen, q)[i] == p;
  }

  /** An answer is a slot exactly when the peer is among the first sixteen, and that slot holds it. */
  lemma {:induction false} AnsweredBySlot(slot: Slot, slots: seq<Peer>, seen: seq<Peer>, p: Peer)
    requires Listed(seen) && Holds(slots, seen) && Answers(slot, seen, p)
    ensures slot.At? <==> InFirst16(seen, p)
    ensures slot.At? ==> slot.index < 16 && slots[slot.index] == p
  {
  }

  lemma {:induction false} FirstSeenListed(ps: seq<Peer>)
    requires forall i :: 0 <= i < |ps| ==> ps[i].port != 0
    ensures Listed(FirstSeen(ps))
    ensures forall i :: 0 <= i < |ps| ==> ps[i] in FirstSeen(ps)
  {
    if ps != [] {
      FirstSeenListed(ps[..|ps| - 1]);
    }
  }

  predicate InFirst16(seen: seq<Peer>, p: Peer) {
    exists k :: 0 <= k < |seen| && k < 16 && seen[k] == p
  }

  lemma {:induction false} AnsweredExactly(slot: Slot, seen: seq<Peer>, p: Peer)
    requires Listed(seen) && Answers(slot, seen, p)
    ensures slot == Missing <==> !InFirst16(seen, p)
  {
    var w :| 0 <= w < |seen| && seen[w] == p && slot == (if w < MAX_ADDR_CACHE then At(w) else Missing);
    if w < 16 {
      assert seen[w] == p;
    }
  }

  /** Answers for the same list of peers: same slot, same peer. */
  lemma {:induction false} SameSlotSamePeer(slot: Slot, slot': Slot, seen: seq<Peer>, p: Peer, p': Peer)
    requires Listed(seen) && Answers(slot, seen, p) && Answers(slot', seen, p')
    ensures slot.At? && slot'.At? ==> (slot == slot' <==> p == p')
    ensures p == p' ==> slot == slot'
    ensures |seen| <= 16 ==> slot.At?
  {
  }

  /**
   * Two lookups of a run that are answered get the same slot exactly when they ask for the same peer; a
   * lookup goes unanswered exactly when its peer is not among the first sixteen.
   */
  lemma {:induction false} SlotsIdentifyPeers(ps: seq<Peer>, out: seq<Slot>, i: nat, j: nat)
    requires forall k :: 0 <= k < |ps| ==> ps[k].port != 0
    requires |out| == |ps| && forall k :: 0 <= k < |ps| ==> Answers(out[k], FirstSeen(ps), ps[k])
    requires i < |ps| && j < |ps|
    ensures out[i].At? && out[j].At? ==> (out[i] == out[j] <==> ps[i] == ps[j])
    ensures ps[i] == ps[j] ==> out[i] == out[j]
    ensures |FirstSeen(ps)| <= 16 ==> out[i].At?
    ensures out[i] == Missing <==> !InFirst16(FirstSeen(ps), ps[i])
  {
    FirstSeenListed(ps);
    hide *;
    SameSlotSamePeer(out[i], out[j], FirstSeen(ps), ps[i], ps[j]);
    AnsweredExactly(out[i], FirstSeen(ps), ps[i]);
  }
}
