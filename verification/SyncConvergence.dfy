/** Peers that have heard each other agree, whatever the order and repetition of announces; and
    without new edits only boundedly many announces change anything. */
module SyncConvergence {
  import opened Results
  import opened Clocks
  import opened SyncState
  import opened SyncRun
  import opened SyncSafety

  // ---- One peer: folding announces ----

  function ReceiveAll(local: Version, remotes: seq<Version>): Version
    decreases |remotes|
  {
    if remotes == [] then local
    else
      var kept := Receive(Some(local), AnnounceOf(remotes[0]), true);
      ReceiveAll(if kept.Some? then kept.value else local, remotes[1..])
  }

  ghost predicate IsUpperBound(local: Version, remotes: seq<Version>, u: Clock) {
    Leq(local.clock, u) && forall r :: r in remotes ==> Leq(r.clock, u)
  }

  ghost predicate AllConsistent(edits: map<Peer, seq<Stamp>>, remotes: seq<Version>) {
    forall r :: r in remotes ==> Greatest(edits, r.clock, r.Mark())
  }

  /** The outcome of a sequence of announces is their join with the local version: the least upper
      bound of the clocks and the last writer among all of them. */
  lemma {:induction false} ReceiveAllIsJoin(edits: map<Peer, seq<Stamp>>, local: Version, remotes: seq<Version>, u: Clock)
    requires Greatest(edits, local.clock, local.Mark()) && AllConsistent(edits, remotes)
    ensures var after := ReceiveAll(local, remotes);
      && Greatest(edits, after.clock, after.Mark())
      && IsUpperBound(local, remotes, after.clock)
      && (IsUpperBound(local, remotes, u) ==> Leq(after.clock, u))
      && (after.Mark() == local.Mark() || exists r :: r in remotes && after.Mark() == r.Mark())
      && !Older(after.Mark(), local.Mark())
      && (forall r :: r in remotes ==> !Older(after.Mark(), r.Mark()))
    decreases |remotes|
  {
    OlderIsTotal();
    if remotes != [] {
      var head, tail := remotes[0], remotes[1..];
      assert remotes == [head] + tail;
      var kept := Receive(Some(local), AnnounceOf(head), true);
      var mid := if kept.Some? then kept.value else local;
      ReceiveIsJoin(edits, local, head);
      MergeIsLeastUpperBound(local.clock, head.clock, u);
      ReceiveAllIsJoin(edits, mid, tail, u);
      var after := ReceiveAll(local, remotes);
      assert after == ReceiveAll(mid, tail);
      assert Leq(Join(local.clock, head.clock), mid.clock) && Leq(mid.clock, Join(local.clock, head.clock));
      LeqTransitive(local.clock, Join(local.clock, head.clock), mid.clock);
      LeqTransitive(head.clock, Join(local.clock, head.clock), mid.clock);
      LeqTransitive(local.clock, mid.clock, after.clock);
      LeqTransitive(head.clock, mid.clock, after.clock);
      if IsUpperBound(local, remotes, u) {
        LeqTransitive(mid.clock, Join(local.clock, head.clock), u);
        assert IsUpperBound(mid, tail, u);
      }
      assert !Older(after.Mark(), mid.Mark());
      assert !Older(mid.Mark(), local.Mark()) && !Older(mid.Mark(), head.Mark());
    }
  }

  /** Strong convergence: any order and any repetition of the same announces has one outcome. */
  lemma OrderAndRepetitionDoNotMatter(edits: map<Peer, seq<Stamp>>, local: Version, xs: seq<Version>, ys: seq<Version>)
    requires Greatest(edits, local.clock, local.Mark()) && AllConsistent(edits, xs)
    requires forall r :: r in xs <==> r in ys
    ensures var a, b := ReceiveAll(local, xs), ReceiveAll(local, ys);
      Relate(a.clock, b.clock) == Equal && a.Mark() == b.Mark()
  {
    var a, b := ReceiveAll(local, xs), ReceiveAll(local, ys);
    ReceiveAllIsJoin(edits, local, xs, b.clock);
    ReceiveAllIsJoin(edits, local, ys, a.clock);
    assert IsUpperBound(local, xs, b.clock) && IsUpperBound(local, ys, a.clock);
    CompareDecidesOrder(a.clock, b.clock);
    OlderIsTotal();
    DominatedMarkIsNotNewer(edits, a.clock, a.Mark(), b.clock, b.Mark());
    DominatedMarkIsNotNewer(edits, b.clock, b.Mark(), a.clock, a.Mark());
  }

  // ---- N peers: a run without edits ----

  ghost predicate Agree(a: Option<Version>, b: Option<Version>) {
    || (a == None && b == None)
    || (a.Some? && b.Some? && a.value.Mark() == b.value.Mark() && Relate(a.value.clock, b.value.clock) == Equal)
  }

  ghost predicate AllBelow(sys: System, u: Clock) {
    forall v :: Holds(sys, v) ==> Leq(v.clock, u)
  }

  lemma StepKeepsBelow(sys: System, step: Step, u: Clock)
    requires Allowed(sys, step) && Issues(sys, step) == None && AllBelow(sys, u)
    ensures AllBelow(Next(sys, step), u)
  {
    StepShape(sys, step);
    var published := Publishes(sys, step);
    if published.Some? {
      var current := sys.states[step.p];
      if current != published {
        var remote :| remote in sys.net && published.value.clock == Join(ClockOf(current), remote.clock);
        assert Holds(sys, remote);
        assert current.Some? ==> Holds(sys, current.value);
        MergeIsLeastUpperBound(ClockOf(current), remote.clock, u);
      } else {
        assert Holds(sys, published.value);
      }
      forall v | Holds(Next(sys, step), v) ensures Leq(v.clock, u) {
        StoreHolds(sys, step.p, published.value, false, v);
      }
    }
  }

  lemma {:induction false} RunKeepsBelow(sys: System, steps: seq<Step>, u: Clock)
    requires AllowedRun(sys, steps) && EditFree(sys, steps) && AllBelow(sys, u)
    ensures AllBelow(Exec(sys, steps), u) && TimelyRun(sys, steps)
    decreases |steps|
  {
    if steps != [] {
      StepKeepsBelow(sys, steps[0], u);
      RunKeepsBelow(Next(sys, steps[0]), steps[1..], u);
    }
  }

  /** What dominates every peer's clock dominates every announce in flight. */
  lemma PeersBoundTheNet(sys: System, u: Clock)
    requires NetCovered(sys)
    requires forall p :: p in sys.states ==> Leq(ClockOf(sys.states[p]), u)
    ensures AllBelow(sys, u)
  {
    forall v | Holds(sys, v) ensures Leq(v.clock, u) {
      if v in sys.net {
        var p :| Covers(sys, p, v.clock);
        LeqTransitive(v.clock, ClockOf(sys.states[p]), u);
      } else {
        var p :| p in sys.states && sys.states[p] == Some(v);
        assert Leq(ClockOf(sys.states[p]), u);
      }
    }
  }

  ghost predicate DominatesAll(sys: System, c: Clock) {
    forall r :: r in sys.states ==> Leq(ClockOf(sys.states[r]), c)
  }

  lemma FinalClocksMeet(sys: System, steps: seq<Step>, p: Peer, q: Peer)
    requires Safe(sys) && AllowedRun(sys, steps) && EditFree(sys, steps)
    requires p in sys.states && q in sys.states
    requires var last := Exec(sys, steps); p in last.states && q in last.states
    requires DominatesAll(sys, ClockOf(Exec(sys, steps).states[p]))
    ensures TimelyRun(sys, steps)
    ensures Leq(ClockOf(Exec(sys, steps).states[q]), ClockOf(Exec(sys, steps).states[p]))
  {
    var last := Exec(sys, steps);
    var u := ClockOf(last.states[p]);
    PeersBoundTheNet(sys, u);
    RunKeepsBelow(sys, steps, u);
    if last.states[q].Some? {
      assert Holds(last, last.states[q].value);
    }
  }

  /** Two peers whose final clocks have both caught up with every peer's initial clock agree. */
  lemma CaughtUpPeersAgree(sys: System, steps: seq<Step>, p: Peer, q: Peer)
    requires Safe(sys) && AllowedRun(sys, steps) && EditFree(sys, steps)
    requires p in sys.states && q in sys.states
    requires var last := Exec(sys, steps); p in last.states && q in last.states
    requires DominatesAll(sys, ClockOf(Exec(sys, steps).states[p]))
    requires DominatesAll(sys, ClockOf(Exec(sys, steps).states[q]))
    ensures Agree(Exec(sys, steps).states[p], Exec(sys, steps).states[q])
  {
    var last := Exec(sys, steps);
    FinalClocksMeet(sys, steps, p, q);
    FinalClocksMeet(sys, steps, q, p);
    RunIsSafeIffTimely(sys, steps);
    var a, b := last.states[p], last.states[q];
    CompareDecidesOrder(ClockOf(a), ClockOf(b));
    if a.Some? && b.Some? {
      assert Holds(last, a.value) && Holds(last, b.value);
      EqualClocksEqualVersions(last, a.value, b.value);
    }
  }

  lemma DeliveryDominates(sys: System, p: Peer, v: Version)
    requires AllIssued(sys) && Allowed(sys, Deliver(p, AnnounceOf(v), true))
    ensures p in Next(sys, Deliver(p, AnnounceOf(v), true)).states
    ensures Leq(v.clock, ClockOf(Next(sys, Deliver(p, AnnounceOf(v), true)).states[p]))
  {
    var current := sys.states[p];
    var step := Deliver(p, AnnounceOf(v), true);
    assert Announced(AnnounceOf(v)) == Some(v) && v in sys.net;
    CompareDecidesOrder(ClockOf(current), v.clock);
    MergeIsLeastUpperBound(ClockOf(current), v.clock, v.clock);
    if Publishes(sys, step).Some? {
      ReceiveRaisesClock(current, AnnounceOf(v), true);
    }
  }

  /** A peer that has heard an announce keeps dominating it for the rest of the run. */
  lemma {:induction false} HeardIsDominated(sys: System, steps: seq<Step>, p: Peer, v: Version)
    requires Discipline(sys) && AllowedRun(sys, steps) && Deliver(p, AnnounceOf(v), true) in steps
    ensures p in Exec(sys, steps).states && Leq(v.clock, ClockOf(Exec(sys, steps).states[p]))
    decreases |steps|
  {
    var now, rest := Next(sys, steps[0]), steps[1..];
    StepKeepsDiscipline(sys, steps[0]);
    if steps[0] == Deliver(p, AnnounceOf(v), true) {
      DeliveryDominates(sys, p, v);
      RunKeepsDiscipline(now, rest);
      LeqTransitive(v.clock, ClockOf(now.states[p]), ClockOf(Exec(now, rest).states[p]));
    } else {
      assert Deliver(p, AnnounceOf(v), true) in rest;
      HeardIsDominated(now, rest, p, v);
    }
  }

  /** Once every peer has applied every other peer's announce, in any order, with any repeats and
      any other traffic in between, all peers hold the same version under the same clock. */
  lemma AllHeardAllAgree(sys: System, steps: seq<Step>)
    requires Safe(sys) && AllowedRun(sys, steps) && EditFree(sys, steps)
    requires forall p, q :: p in sys.states && q in sys.states && p != q && sys.states[q].Some? ==>
      Deliver(p, AnnounceOf(sys.states[q].value), true) in steps
    ensures forall p, q :: p in Exec(sys, steps).states && q in Exec(sys, steps).states ==>
      Agree(Exec(sys, steps).states[p], Exec(sys, steps).states[q])
  {
    var last := Exec(sys, steps);
    RunKeepsDiscipline(sys, steps);
    forall p | p in sys.states ensures DominatesAll(sys, ClockOf(last.states[p])) {
      forall q | q in sys.states ensures Leq(ClockOf(sys.states[q]), ClockOf(last.states[p])) {
        if p != q && sys.states[q].Some? {
          HeardIsDominated(sys, steps, p, sys.states[q].value);
        }
      }
    }
    forall p, q | p in sys.states && q in sys.states ensures Agree(last.states[p], last.states[q]) {
      CaughtUpPeersAgree(sys, steps, p, q);
    }
  }

  // ---- Announce storms terminate ----

  /** How far clock `c` is behind what the authors in `qs` have issued. */
  function Behind(edits: map<Peer, seq<Stamp>>, c: Clock, qs: seq<Peer>): int {
    if qs == [] then 0 else Count(edits, qs[0]) - At(c, qs[0]) + Behind(edits, c, qs[1..])
  }

  function Slack(sys: System, ps: seq<Peer>, qs: seq<Peer>): int
    requires forall p :: p in ps ==> p in sys.states
  {
    if ps == [] then 0 else Behind(sys.edits, ClockOf(sys.states[ps[0]]), qs) + Slack(sys, ps[1..], qs)
  }

  /** The number of announces received that replace a state, each answered by one re-announce. */
  function Changes(sys: System, steps: seq<Step>): nat
    requires AllowedRun(sys, steps)
    decreases |steps|
  {
    if steps == [] then 0
    else (if steps[0].Deliver? && Publishes(sys, steps[0]).Some? then 1 else 0) +
         Changes(Next(sys, steps[0]), steps[1..])
  }

  lemma {:induction false} BehindShrinks(edits: map<Peer, seq<Stamp>>, c: Clock, d: Clock, qs: seq<Peer>)
    requires Leq(c, d)
    ensures Behind(edits, d, qs) <= Behind(edits, c, qs)
    ensures (exists q :: q in qs && At(c, q) < At(d, q)) ==> Behind(edits, d, qs) < Behind(edits, c, qs)
  {
    if qs != [] {
      assert qs == [qs[0]] + qs[1..];
      assert At(c, qs[0]) <= At(d, qs[0]);
      BehindShrinks(edits, c, d, qs[1..]);
    }
  }

  lemma {:induction false} BehindIsNatural(edits: map<Peer, seq<Stamp>>, c: Clock, qs: seq<Peer>)
    requires forall q :: At(c, q) <= Count(edits, q)
    ensures 0 <= Behind(edits, c, qs)
  {
    if qs != [] {
      assert At(c, qs[0]) <= Count(edits, qs[0]);
      BehindIsNatural(edits, c, qs[1..]);
    }
  }

  lemma {:induction false} SlackIsNatural(sys: System, ps: seq<Peer>, qs: seq<Peer>)
    requires Discipline(sys)
    requires forall p :: p in ps ==> p in sys.states
    ensures 0 <= Slack(sys, ps, qs)
  {
    if ps != [] {
      var c := ClockOf(sys.states[ps[0]]);
      assert forall q :: At(c, q) <= Count(sys.edits, q);
      BehindIsNatural(sys.edits, c, qs);
      SlackIsNatural(sys, ps[1..], qs);
    }
  }

  lemma {:induction false} SlackShrinks(sys: System, now: System, ps: seq<Peer>, qs: seq<Peer>, p: Peer)
    requires forall r :: r in ps ==> r in sys.states && r in now.states
    requires sys.edits == now.edits
    requires forall r :: r in ps ==> Leq(ClockOf(sys.states[r]), ClockOf(now.states[r]))
    ensures Slack(now, ps, qs) <= Slack(sys, ps, qs)
    ensures p in ps && (exists q :: q in qs && At(ClockOf(sys.states[p]), q) < At(ClockOf(now.states[p]), q)) ==>
      Slack(now, ps, qs) < Slack(sys, ps, qs)
  {
    if ps != [] {
      assert ps == [ps[0]] + ps[1..];
      BehindShrinks(sys.edits, ClockOf(sys.states[ps[0]]), ClockOf(now.states[ps[0]]), qs);
      SlackShrinks(sys, now, ps[1..], qs, p);
    }
  }

  ghost predicate Lists(sys: System, ps: seq<Peer>) {
    forall p :: p in ps <==> p in sys.states
  }

  /** A peer that adopts a clock with something new spends slack. */
  lemma StoreSpendsSlack(sys: System, p: Peer, v: Version, ps: seq<Peer>)
    requires OwnCounts(sys) && Lists(sys, ps) && p in sys.states
    requires Leq(ClockOf(sys.states[p]), v.clock)
    ensures Lists(Store(sys, p, v, false), ps)
    ensures Slack(Store(sys, p, v, false), ps, ps) <= Slack(sys, ps, ps)
    ensures !Leq(v.clock, ClockOf(sys.states[p])) && (forall q :: At(v.clock, q) <= Count(sys.edits, q)) ==>
      Slack(Store(sys, p, v, false), ps, ps) < Slack(sys, ps, ps)
  {
    var now := Store(sys, p, v, false);
    StoreGrows(sys, p, v, false);
    SlackShrinks(sys, now, ps, ps, p);
    if !Leq(v.clock, ClockOf(sys.states[p])) && forall q :: At(v.clock, q) <= Count(sys.edits, q) {
      var q :| At(v.clock, q) > At(ClockOf(sys.states[p]), q);
      assert At(v.clock, q) <= Count(sys.edits, q);
      assert q in ps;
    }
  }

  lemma StepSpendsSlack(sys: System, step: Step, ps: seq<Peer>)
    requires Discipline(sys) && Allowed(sys, step) && Issues(sys, step) == None && Lists(sys, ps)
    ensures Lists(Next(sys, step), ps)
    ensures Slack(Next(sys, step), ps, ps) +
            (if step.Deliver? && Publishes(sys, step).Some? then 1 else 0) <= Slack(sys, ps, ps)
  {
    if Publishes(sys, step).Some? {
      var v := Publishes(sys, step).value;
      StepClock(sys, step);
      StoreSpendsSlack(sys, step.p, v, ps);
      if step.Deliver? {
        assert Issued(sys.edits, Announced(step.a).value.clock);
        ReceiveRaisesClock(sys.states[step.p], step.a, step.fetched);
      }
    }
  }

  /** Without new edits, and with no hypothesis on timestamps, the announces that change a state
      are at most as many as the edits the peers have yet to learn of. */
  lemma {:induction false} AnnounceStormsEnd(sys: System, steps: seq<Step>, ps: seq<Peer>)
    requires Discipline(sys) && AllowedRun(sys, steps) && EditFree(sys, steps) && Lists(sys, ps)
    ensures Changes(sys, steps) <= Slack(sys, ps, ps)
    decreases |steps|
  {
    if steps == [] {
      SlackIsNatural(sys, ps, ps);
    } else {
      StepSpendsSlack(sys, steps[0], ps);
      StepKeepsDiscipline(sys, steps[0]);
      AnnounceStormsEnd(Next(sys, steps[0]), steps[1..], ps);
    }
  }
}
