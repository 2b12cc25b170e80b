/** Equal clocks mean equal versions: the invariant that justifies ignoring an announce whose
    clock equals ours, and taking over a dominating version without comparing timestamps. */
module SyncSafety {
  import opened Results
  import opened Clocks
  import opened SyncState
  import opened SyncRun

  /** The n-th edit of `q` is among the edits that clock `c` covers. */
  ghost predicate Covered(edits: map<Peer, seq<Stamp>>, c: Clock, q: Peer, n: nat) {
    q in edits && 1 <= n <= |edits[q]| && n <= At(c, q)
  }

  /** `mark` is the greatest stamp among the edits that clock `c` covers. */
  ghost predicate Greatest(edits: map<Peer, seq<Stamp>>, c: Clock, mark: Stamp) {
    && (forall q, n :: Covered(edits, c, q, n) ==> !Older(mark, edits[q][n - 1]))
    && (exists q, n :: Covered(edits, c, q, n) && edits[q][n - 1] == mark)
  }

  ghost predicate AllGreatest(sys: System) {
    forall v :: Holds(sys, v) ==> Greatest(sys.edits, v.clock, v.Mark())
  }

  ghost predicate Safe(sys: System) {
    Discipline(sys) && AllGreatest(sys)
  }

  lemma InitialIsSafe(sys: System)
    requires Initial(sys)
    ensures Safe(sys)
  {
  }

  /** New edits do not disturb a clock that covers only earlier ones. */
  lemma GreatestIsStable(edits: map<Peer, seq<Stamp>>, p: Peer, newMark: Stamp, c: Clock, mark: Stamp)
    requires p in edits && At(c, p) <= |edits[p]|
    ensures Greatest(edits[p := edits[p] + [newMark]], c, mark) <==> Greatest(edits, c, mark)
  {
    var more := edits[p := edits[p] + [newMark]];
    forall q, n: nat
      ensures Covered(more, c, q, n) <==> Covered(edits, c, q, n)
      ensures Covered(edits, c, q, n) ==> more[q][n - 1] == edits[q][n - 1]
    {
    }
    if Greatest(edits, c, mark) {
      var q, n :| Covered(edits, c, q, n) && edits[q][n - 1] == mark;
      assert Covered(more, c, q, n) && more[q][n - 1] == mark;
    }
    if Greatest(more, c, mark) {
      var q, n :| Covered(more, c, q, n) && more[q][n - 1] == mark;
      assert Covered(edits, c, q, n) && edits[q][n - 1] == mark;
    }
  }

  lemma DominatedMarkIsNotNewer(edits: map<Peer, seq<Stamp>>, c: Clock, m: Stamp, d: Clock, k: Stamp)
    requires Greatest(edits, c, m) && Greatest(edits, d, k) && Leq(c, d)
    ensures !Older(k, m)
  {
    var q, n :| Covered(edits, c, q, n) && edits[q][n - 1] == m;
    assert At(c, q) <= At(d, q);
    assert Covered(edits, d, q, n);
  }

  /** The greatest stamp under a merged clock is the greater of the two. */
  lemma GreatestOfJoin(edits: map<Peer, seq<Stamp>>, c: Clock, m: Stamp, d: Clock, k: Stamp)
    requires Greatest(edits, c, m) && Greatest(edits, d, k) && !Older(k, m)
    ensures Greatest(edits, Join(c, d), k)
  {
    OlderIsTotal();
    MergeIsLeastUpperBound(c, d, c);
    var e := Join(c, d);
    forall q, n: nat | Covered(edits, e, q, n) ensures !Older(k, edits[q][n - 1]) {
      assert At(e, q) == At(c, q) || At(e, q) == At(d, q);
      assert Covered(edits, c, q, n) || Covered(edits, d, q, n);
    }
    var q, n :| Covered(edits, d, q, n) && edits[q][n - 1] == k;
    assert At(d, q) <= At(e, q);
    assert Covered(edits, e, q, n);
  }

  lemma JoinCommutesPointwise(c: Clock, d: Clock, q: Peer)
    ensures At(Join(c, d), q) == At(Join(d, c), q)
  {
  }

  /** Greatest depends on the counters only, not on explicit zero entries. */
  lemma GreatestOfSameClock(edits: map<Peer, seq<Stamp>>, c: Clock, d: Clock, m: Stamp)
    requires Greatest(edits, c, m) && Leq(c, d) && Leq(d, c)
    ensures Greatest(edits, d, m)
  {
    forall q, n: nat ensures Covered(edits, c, q, n) <==> Covered(edits, d, q, n) {
      assert At(c, q) == At(d, q);
    }
    var q, n :| Covered(edits, c, q, n) && edits[q][n - 1] == m;
    assert Covered(edits, d, q, n);
  }

  /** Equal clocks, equal versions; and the clock order never contradicts the stamp order. */
  lemma EqualClocksEqualVersions(sys: System, v: Version, w: Version)
    requires Safe(sys) && Holds(sys, v) && Holds(sys, w)
    ensures Relate(v.clock, w.clock) == Equal ==> v.hash == w.hash && v.time == w.time
    ensures Relate(v.clock, w.clock) == OtherDominates ==> !Older(w.Mark(), v.Mark())
  {
    CompareDecidesOrder(v.clock, w.clock);
    OlderIsTotal();
    if Leq(v.clock, w.clock) {
      DominatedMarkIsNotNewer(sys.edits, v.clock, v.Mark(), w.clock, w.Mark());
      if Leq(w.clock, v.clock) {
        DominatedMarkIsNotNewer(sys.edits, w.clock, w.Mark(), v.clock, v.Mark());
      }
    }
  }

  /** Receiving an announce is the join of the two versions: pointwise greatest clock, greatest
      stamp. The code never compares timestamps when the remote clock dominates; it is the
      invariant on both sides that makes taking the remote version right. */
  lemma ReceiveIsJoin(edits: map<Peer, seq<Stamp>>, local: Version, remote: Version)
    requires Greatest(edits, local.clock, local.Mark())
    requires Greatest(edits, remote.clock, remote.Mark())
    ensures var kept := Receive(Some(local), AnnounceOf(remote), true);
      var after := if kept.Some? then kept.value else local;
      && (forall q :: At(after.clock, q) == At(Join(local.clock, remote.clock), q))
      && after.Mark() == (if Older(local.Mark(), remote.Mark()) then remote.Mark() else local.Mark())
      && Greatest(edits, after.clock, after.Mark())
  {
    var kept := Receive(Some(local), AnnounceOf(remote), true);
    var c, d := local.clock, remote.clock;
    CompareDecidesOrder(c, d);
    OlderIsTotal();
    LwwPicksOneWinner(local, remote);
    MergeIsLeastUpperBound(c, d, c);
    if Leq(c, d) {
      DominatedMarkIsNotNewer(edits, c, local.Mark(), d, remote.Mark());
    }
    if Leq(d, c) {
      DominatedMarkIsNotNewer(edits, d, remote.Mark(), c, local.Mark());
    }
    if Older(local.Mark(), remote.Mark()) || local.Mark() == remote.Mark() {
      GreatestOfJoin(edits, c, local.Mark(), d, remote.Mark());
    } else {
      GreatestOfJoin(edits, d, remote.Mark(), c, local.Mark());
      forall q ensures At(Join(c, d), q) == At(Join(d, c), q) {
        JoinCommutesPointwise(c, d, q);
      }
      GreatestOfSameClock(edits, Join(d, c), Join(c, d), local.Mark());
    }
  }

  lemma FetchFromNothing(edits: map<Peer, seq<Stamp>>, remote: Version)
    requires Greatest(edits, remote.clock, remote.Mark())
    ensures var v := Adopt(None, remote); Greatest(edits, v.clock, v.Mark())
  {
    var v := Adopt(None, remote);
    assert forall q :: At(v.clock, q) == At(remote.clock, q);
    GreatestOfSameClock(edits, remote.clock, v.clock, remote.Mark());
  }

  /** An edit keeps its author's stamp the greatest of all it covers if and only if the new
      stamp is not older than the one it replaces. */
  lemma EditIsGreatestIff(edits: map<Peer, seq<Stamp>>, p: Peer, c: Clock, mark: Stamp, newMark: Stamp)
    requires p in edits && At(c, p) == |edits[p]| && Greatest(edits, c, mark)
    ensures Greatest(edits[p := edits[p] + [newMark]], Bump(c, p), newMark) <==> !Older(newMark, mark)
  {
    var more := edits[p := edits[p] + [newMark]];
    var d := Bump(c, p);
    OlderIsTotal();
    forall q, n: nat
      ensures Covered(more, d, q, n) <==> Covered(edits, c, q, n) || (q == p && n == |edits[p]| + 1)
      ensures Covered(edits, c, q, n) ==> Covered(more, d, q, n) && more[q][n - 1] == edits[q][n - 1]
    {
    }
    assert Covered(more, d, p, |edits[p]| + 1) && more[p][|edits[p]|] == newMark;
    if Older(newMark, mark) {
      var q, n :| Covered(edits, c, q, n) && edits[q][n - 1] == mark;
      assert Covered(more, d, q, n);
    }
  }

  lemma FirstEditIsGreatest(edits: map<Peer, seq<Stamp>>, p: Peer, newMark: Stamp)
    requires p in edits && edits[p] == []
    ensures Greatest(edits[p := edits[p] + [newMark]], Bump(map[], p), newMark)
  {
    var more := edits[p := edits[p] + [newMark]];
    OlderIsTotal();
    assert Covered(more, Bump(map[], p), p, 1) && more[p][0] == newMark;
    forall q, n: nat | Covered(more, Bump(map[], p), q, n) ensures q == p && n == 1 {
    }
  }

  lemma StoreKeepsOthersGreatest(sys: System, p: Peer, v: Version, isEdit: bool, w: Version)
    requires p in sys.edits && Issued(sys.edits, w.clock) && Greatest(sys.edits, w.clock, w.Mark())
    ensures Greatest(Store(sys, p, v, isEdit).edits, w.clock, w.Mark())
  {
    assert At(w.clock, p) <= Count(sys.edits, p);
    GreatestIsStable(sys.edits, p, v.Mark(), w.clock, w.Mark());
  }

  lemma StoreHolds(sys: System, p: Peer, v: Version, isEdit: bool, w: Version)
    requires p in sys.edits && Holds(Store(sys, p, v, isEdit), w)
    ensures w == v || Holds(sys, w)
  {
  }

  lemma HeldIsIssued(sys: System, w: Version)
    requires AllIssued(sys) && Holds(sys, w)
    ensures Issued(sys.edits, w.clock)
  {
  }

  lemma StoreKeepsGreatest(sys: System, p: Peer, v: Version, isEdit: bool)
    requires Safe(sys) && p in sys.edits
    requires Greatest(Store(sys, p, v, isEdit).edits, v.clock, v.Mark())
    ensures AllGreatest(Store(sys, p, v, isEdit))
  {
    var now := Store(sys, p, v, isEdit);
    forall w | Holds(now, w) ensures Greatest(now.edits, w.clock, w.Mark()) {
      StoreHolds(sys, p, v, isEdit, w);
      if w != v {
        HeldIsIssued(sys, w);
        StoreKeepsOthersGreatest(sys, p, v, isEdit, w);
      }
    }
  }

  lemma IssuedIsGreatestIff(sys: System, step: Step)
    requires Safe(sys) && Allowed(sys, step) && Issues(sys, step).Some?
    ensures var v := Issues(sys, step).value;
      Greatest(Store(sys, step.p, v, true).edits, v.clock, v.Mark()) <==> Timely(sys, step)
  {
    StepShape(sys, step);
    var p, v, current := step.p, Issues(sys, step).value, sys.states[step.p];
    OlderIsTotal();
    if current.Some? {
      assert Holds(sys, current.value);
      EditIsGreatestIff(sys.edits, p, current.value.clock, current.value.Mark(), v.Mark());
      assert current.value.hash != v.hash;
    } else {
      FirstEditIsGreatest(sys.edits, p, v.Mark());
    }
  }

  lemma FetchedAsAnnounced(current: Option<Version>, a: Announce, fetched: bool)
    requires Announced(a).Some? && Receive(current, a, fetched).Some?
    ensures Receive(current, AnnounceOf(Announced(a).value), true) == Receive(current, a, fetched)
  {
  }

  lemma ReceiveKeepsGreatest(edits: map<Peer, seq<Stamp>>, current: Option<Version>, a: Announce, fetched: bool)
    requires Announced(a).Some? && Receive(current, a, fetched).Some?
    requires Greatest(edits, Announced(a).value.clock, Announced(a).value.Mark())
    requires current.Some? ==> Greatest(edits, current.value.clock, current.value.Mark())
    ensures var v := Receive(current, a, fetched).value; Greatest(edits, v.clock, v.Mark())
  {
    FetchedAsAnnounced(current, a, fetched);
    if current.Some? {
      ReceiveIsJoin(edits, current.value, Announced(a).value);
    } else {
      FetchFromNothing(edits, Announced(a).value);
    }
  }

  lemma ReceivedIsGreatest(sys: System, step: Step)
    requires Safe(sys) && Allowed(sys, step) && step.Deliver? && Publishes(sys, step).Some?
    ensures var v := Publishes(sys, step).value; Greatest(sys.edits, v.clock, v.Mark())
  {
    var current, remote := sys.states[step.p], Announced(step.a).value;
    assert Holds(sys, remote);
    assert current.Some? ==> Holds(sys, current.value);
    ReceiveKeepsGreatest(sys.edits, current, step.a, step.fetched);
  }

  /** One step: the stored version is the greatest exactly when an edit step is timely. */
  lemma StoredIsGreatestIff(sys: System, step: Step)
    requires Safe(sys) && Allowed(sys, step) && Publishes(sys, step).Some?
    ensures var v := Publishes(sys, step).value;
      Greatest(Next(sys, step).edits, v.clock, v.Mark()) <==> Timely(sys, step)
  {
    StepShape(sys, step);
    var v := Publishes(sys, step).value;
    if Issues(sys, step).Some? {
      IssuedIsGreatestIff(sys, step);
    } else if step.Deliver? {
      ReceivedIsGreatest(sys, step);
    } else {
      assert sys.states[step.p] == Some(v);
      assert Holds(sys, v);
    }
  }

  /** The safety invariant survives a step if and only if the step is timely: the growth of stamps
      from one edit to the next, which the code does not enforce, is exactly what it needs. */
  lemma StepKeepsSafeIffTimely(sys: System, step: Step)
    requires Safe(sys) && Allowed(sys, step)
    ensures Safe(Next(sys, step)) <==> Timely(sys, step)
  {
    StepKeepsDiscipline(sys, step);
    if Publishes(sys, step).Some? {
      var v := Publishes(sys, step).value;
      StoredIsGreatestIff(sys, step);
      if Timely(sys, step) {
        StoreKeepsGreatest(sys, step.p, v, Issues(sys, step).Some?);
      } else {
        assert Holds(Next(sys, step), v);
      }
    } else {
      StepShape(sys, step);
    }
  }

  /** A published version whose stamp is not the greatest its clock covers. */
  ghost predicate Flawed(sys: System, v: Version) {
    v in sys.net && Issued(sys.edits, v.clock) && !Greatest(sys.edits, v.clock, v.Mark())
  }

  lemma StoreKeepsFlaw(sys: System, p: Peer, w: Version, isEdit: bool, v: Version)
    requires p in sys.edits && Flawed(sys, v)
    ensures Flawed(Store(sys, p, w, isEdit), v)
  {
    if isEdit {
      assert At(v.clock, p) <= Count(sys.edits, p);
      GreatestIsStable(sys.edits, p, w.Mark(), v.clock, v.Mark());
      IssuedGrows(sys.edits, p, w.Mark(), v.clock);
    }
  }

  lemma {:induction false} FlawPersists(sys: System, steps: seq<Step>, v: Version)
    requires AllowedRun(sys, steps) && Flawed(sys, v)
    ensures Flawed(Exec(sys, steps), v)
    decreases |steps|
  {
    if steps != [] {
      if Publishes(sys, steps[0]).Some? {
        StoreKeepsFlaw(sys, steps[0].p, Publishes(sys, steps[0]).value, Issues(sys, steps[0]).Some?, v);
      }
      FlawPersists(Next(sys, steps[0]), steps[1..], v);
    }
  }

  lemma UntimelyStepLeavesFlaw(sys: System, step: Step)
    requires Safe(sys) && Allowed(sys, step) && !Timely(sys, step)
    ensures Publishes(sys, step).Some? && Flawed(Next(sys, step), Publishes(sys, step).value)
  {
    StepShape(sys, step);
    StoredIsGreatestIff(sys, step);
    StepClock(sys, step);
  }

  lemma FlawIsUnsafe(sys: System, v: Version)
    requires Flawed(sys, v)
    ensures !Safe(sys)
  {
    assert Holds(sys, v);
  }

  /** Safety over whole runs of edits, deliveries in any order with repeats, failed fetches, ticks
      and restarts: a run ends safe if and only if every edit in it is timely. One back-dated edit
      leaves an announce in the network that no later step repairs. */
  lemma {:induction false} RunIsSafeIffTimely(sys: System, steps: seq<Step>)
    requires Safe(sys) && AllowedRun(sys, steps)
    ensures Safe(Exec(sys, steps)) <==> TimelyRun(sys, steps)
    decreases |steps|
  {
    if steps != [] {
      var now, rest := Next(sys, steps[0]), steps[1..];
      StepKeepsSafeIffTimely(sys, steps[0]);
      if Timely(sys, steps[0]) {
        RunIsSafeIffTimely(now, rest);
      } else {
        UntimelyStepLeavesFlaw(sys, steps[0]);
        FlawPersists(now, rest, Publishes(sys, steps[0]).value);
        FlawIsUnsafe(Exec(now, rest), Publishes(sys, steps[0]).value);
      }
    }
  }

  /** In every reachable state, versions with equal clocks are the same version. */
  lemma ReachableClocksIdentifyVersions(start: System, steps: seq<Step>, v: Version, w: Version)
    requires Initial(start) && AllowedRun(start, steps) && TimelyRun(start, steps)
    requires Holds(Exec(start, steps), v) && Holds(Exec(start, steps), w)
    requires Relate(v.clock, w.clock) == Equal
    ensures v.hash == w.hash && v.time == w.time
  {
    InitialIsSafe(start);
    RunIsSafeIffTimely(start, steps);
    EqualClocksEqualVersions(Exec(start, steps), v, w);
  }
}
