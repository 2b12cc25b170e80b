/** Vector clocks (src/clock.rs): one counter per peer, absent entries read as 0. */
module Clocks {
  type Peer = string

  type Clock = map<Peer, nat>

  datatype ClockOrdering = Equal | SelfDominates | OtherDominates | Concurrent

  function At(c: Clock, p: Peer): nat {
    if p in c then c[p] else 0
  }

  /** The pointwise order. */
  ghost predicate Leq(c: Clock, d: Clock) {
    forall p :: At(c, p) <= At(d, p)
  }

  /** Some counter of `c` is ahead of the same counter of `d`. */
  predicate Ahead(c: Clock, d: Clock) {
    exists p | p in c.Keys + d.Keys :: At(c, p) > At(d, p)
  }

  /** What the two flags of the comparison loop say at its end. */
  function OrderingOf(selfAhead: bool, otherAhead: bool): ClockOrdering {
    if selfAhead then (if otherAhead then Concurrent else SelfDominates)
    else if otherAhead then OtherDominates
    else Equal
  }

  function Relate(c: Clock, d: Clock): ClockOrdering {
    OrderingOf(Ahead(c, d), Ahead(d, c))
  }

  function Join(c: Clock, d: Clock): Clock {
    map p | p in c.Keys + d.Keys :: if At(d, p) > At(c, p) then At(d, p) else At(c, p)
  }

  function Bump(c: Clock, p: Peer): Clock {
    c[p := At(c, p) + 1]
  }

  lemma AheadIffNotLeq(c: Clock, d: Clock)
    ensures Ahead(c, d) <==> !Leq(c, d)
  {
    if !Leq(c, d) {
      var p :| At(c, p) > At(d, p);
      assert p in c.Keys + d.Keys;
    }
  }

  /** `compare` decides exactly the pointwise order; explicit zero entries do not matter. */
  lemma CompareDecidesOrder(c: Clock, d: Clock)
    ensures Relate(c, d) == Equal <==> Leq(c, d) && Leq(d, c)
    ensures Relate(c, d) == SelfDominates <==> Leq(d, c) && !Leq(c, d)
    ensures Relate(c, d) == OtherDominates <==> Leq(c, d) && !Leq(d, c)
    ensures Relate(c, d) == Concurrent <==> !Leq(c, d) && !Leq(d, c)
  {
    AheadIffNotLeq(c, d);
    AheadIffNotLeq(d, c);
  }

  /** `merge` is the least upper bound. */
  lemma MergeIsLeastUpperBound(c: Clock, d: Clock, u: Clock)
    ensures Leq(c, Join(c, d)) && Leq(d, Join(c, d))
    ensures Leq(c, u) && Leq(d, u) ==> Leq(Join(c, d), u)
    ensures forall p :: At(Join(c, d), p) == At(c, p) || At(Join(c, d), p) == At(d, p)
  {
    forall p
      ensures At(Join(c, d), p) == if At(d, p) > At(c, p) then At(d, p) else At(c, p)
    {
    }
  }

  lemma LeqTransitive(c: Clock, d: Clock, e: Clock)
    requires Leq(c, d) && Leq(d, e)
    ensures Leq(c, e)
  {
    forall p ensures At(c, p) <= At(e, p) {
      assert At(c, p) <= At(d, p);
    }
  }

  /** Merging raises the clock strictly exactly when the other side was ahead somewhere. */
  lemma MergeRaisesIffAhead(c: Clock, d: Clock)
    ensures !Leq(Join(c, d), c) <==> Relate(c, d) in {OtherDominates, Concurrent}
  {
    AheadIffNotLeq(c, d);
    AheadIffNotLeq(d, c);
    MergeIsLeastUpperBound(c, d, c);
    if !Leq(d, c) {
      var p :| At(d, p) > At(c, p);
      assert At(Join(c, d), p) >= At(d, p);
    }
  }

  class VectorClock {
    var entries: Clock

    constructor ()
      ensures entries == map[]
    {
      entries := map[];
    }

    method Increment(peer: Peer)
      modifies this
      ensures entries == Bump(old(entries), peer)
    {
      if peer !in entries {
        entries := entries[peer := 0];
      }
      entries := entries[peer := entries[peer] + 1];
    }

    method Merge(other: VectorClock)
      modifies this
      ensures entries == Join(old(entries), old(other.entries))
    {
      var theirs := other.entries;
      var todo := theirs.Keys;
      while todo != {}
        invariant todo <= theirs.Keys
        invariant entries.Keys == old(entries.Keys) + (theirs.Keys - todo)
        invariant forall p :: p in entries && p in theirs.Keys - todo ==>
          entries[p] == Join(old(entries), theirs)[p]
        invariant forall p :: p in entries && p !in theirs.Keys - todo ==>
          p in old(entries) && entries[p] == old(entries)[p]
        decreases todo
      {
        var peer :| peer in todo;
        var v := theirs[peer];
        if peer !in entries {
          entries := entries[peer := 0];
        }
        if v > entries[peer] {
          entries := entries[peer := v];
        }
        todo := todo - {peer};
      }
    }

    method Compare(other: VectorClock) returns (r: ClockOrdering)
      ensures r == Relate(entries, other.entries)
    {
      var selfAhead, otherAhead := false, false;
      var keys := entries.Keys + other.entries.Keys;
      var todo := keys;
      while todo != {}
        invariant todo <= keys
        invariant selfAhead <==> exists p :: p in keys - todo && At(entries, p) > At(other.entries, p)
        invariant otherAhead <==> exists p :: p in keys - todo && At(other.entries, p) > At(entries, p)
        decreases todo
      {
        var key :| key in todo;
        var s, o := At(entries, key), At(other.entries, key);
        if s > o {
          selfAhead := true;
        }
        if o > s {
          otherAhead := true;
        }
        todo := todo - {key};
      }
      assert keys - todo == keys;
      return OrderingOf(selfAhead, otherAhead);
    }
  }
}
