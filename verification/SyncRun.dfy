/** N peers running the sync loop over a network that may reorder, repeat and delay announces. */
module SyncRun {
  import opened Results
  import opened Clocks
  import opened SyncState

  /** `edits[p]` is the history of stamps that `p` has issued: its n-th edit carries counter n.
      `net` holds every announce ever published. */
  datatype System = System(
    states: map<Peer, Option<Version>>,
    edits: map<Peer, seq<Stamp>>,
    net: set<Version>)

  datatype Step =
    | Edit(p: Peer, content: Option<string>, now: int)
    | Restart(p: Peer, content: Option<string>, now: int)
    | Deliver(p: Peer, a: Announce, fetched: bool)
    | Tick(p: Peer)

  /** Any announce in the network may arrive, and so may a legacy one. A restart finds the share
      root non-empty when the peer holds a version. */
  predicate Allowed(sys: System, step: Step) {
    && step.p in sys.states && step.p in sys.edits
    && match step
       case Deliver(p, a, _) => Announced(a).Some? ==> Announced(a).value in sys.net
       case Restart(p, content, _) => sys.states[p].Some? ==> content.Some?
       case _ => true
  }

  /** The version that a step newly issues, if it is an edit that changes something. */
  function Issues(sys: System, step: Step): Option<Version>
    requires Allowed(sys, step)
  {
    match step
    case Edit(p, content, now) => LocalChange(sys.states[p], p, content, now)
    case Restart(p, content, now) => LocalChange(sys.states[p], p, content, now)
    case _ => None
  }

  function Publishes(sys: System, step: Step): Option<Version>
    requires Allowed(sys, step)
  {
    match step
    case Edit(p, content, now) => LocalChange(sys.states[p], p, content, now)
    case Restart(p, content, now) => Reconcile(sys.states[p], p, content, now)
    case Deliver(p, a, fetched) => Receive(sys.states[p], a, fetched)
    case Tick(p) => sys.states[p]
  }

  /** Peer `p` holds and publishes `v`, which joins the history when it is an edit. */
  function Store(sys: System, p: Peer, v: Version, isEdit: bool): System
    requires p in sys.edits
  {
    System(
      sys.states[p := Some(v)],
      if isEdit then sys.edits[p := sys.edits[p] + [v.Mark()]] else sys.edits,
      sys.net + {v})
  }

  /** Every step that publishes leaves the peer holding what it published. */
  function Next(sys: System, step: Step): System
    requires Allowed(sys, step)
  {
    match Publishes(sys, step)
    case None => sys
    case Some(v) => Store(sys, step.p, v, Issues(sys, step).Some?)
  }

  /** The hypothesis on clocks of the real world: a new edit's stamp exceeds the stamp it replaces. */
  predicate Timely(sys: System, step: Step)
    requires Allowed(sys, step)
  {
    var issued := Issues(sys, step);
    issued.Some? && sys.states[step.p].Some? ==> Older(sys.states[step.p].value.Mark(), issued.value.Mark())
  }

  predicate AllowedRun(sys: System, steps: seq<Step>)
    decreases |steps|
  {
    steps == [] || (Allowed(sys, steps[0]) && AllowedRun(Next(sys, steps[0]), steps[1..]))
  }

  function Exec(sys: System, steps: seq<Step>): System
    requires AllowedRun(sys, steps)
    decreases |steps|
  {
    if steps == [] then sys else Exec(Next(sys, steps[0]), steps[1..])
  }

  predicate TimelyRun(sys: System, steps: seq<Step>)
    requires AllowedRun(sys, steps)
    decreases |steps|
  {
    steps == [] || (Timely(sys, steps[0]) && TimelyRun(Next(sys, steps[0]), steps[1..]))
  }

  predicate EditFree(sys: System, steps: seq<Step>)
    requires AllowedRun(sys, steps)
    decreases |steps|
  {
    steps == [] || (Issues(sys, steps[0]).None? && EditFree(Next(sys, steps[0]), steps[1..]))
  }

  ghost predicate Initial(sys: System) {
    && sys.states.Keys == sys.edits.Keys
    && (forall p :: p in sys.states ==> sys.states[p] == None && sys.edits[p] == [])
    && sys.net == {}
  }

  ghost predicate Holds(sys: System, v: Version) {
    v in sys.net || exists p :: p in sys.states && sys.states[p] == Some(v)
  }

  function Count(edits: map<Peer, seq<Stamp>>, p: Peer): nat {
    if p in edits then |edits[p]| else 0
  }

  /** Only counters that their authors have issued, and at least one of them. */
  ghost predicate Issued(edits: map<Peer, seq<Stamp>>, c: Clock) {
    && (forall q :: At(c, q) <= Count(edits, q))
    && (exists q :: At(c, q) > 0)
  }

  /** A peer's own counter is the number of edits it has issued. */
  ghost predicate OwnCounts(sys: System) {
    && sys.states.Keys == sys.edits.Keys
    && forall p :: p in sys.states ==> At(ClockOf(sys.states[p]), p) == |sys.edits[p]|
  }

  ghost predicate AllIssued(sys: System) {
    && (forall p :: p in sys.states && sys.states[p].Some? ==> Issued(sys.edits, sys.states[p].value.clock))
    && (forall v :: v in sys.net ==> Issued(sys.edits, v.clock))
  }

  ghost predicate Covers(sys: System, p: Peer, c: Clock) {
    p in sys.states && sys.states[p].Some? && Leq(c, sys.states[p].value.clock)
  }

  /** Every published announce is dominated by the clock of some peer. */
  ghost predicate NetCovered(sys: System) {
    forall v :: v in sys.net ==> exists p :: Covers(sys, p, v.clock)
  }

  /** Clock discipline: needs no hypothesis on timestamps. */
  ghost predicate Discipline(sys: System) {
    OwnCounts(sys) && AllIssued(sys) && NetCovered(sys)
  }

  lemma IssuedGrows(edits: map<Peer, seq<Stamp>>, p: Peer, mark: Stamp, c: Clock)
    requires p in edits && Issued(edits, c)
    ensures Issued(edits[p := edits[p] + [mark]], c)
  {
    var more := edits[p := edits[p] + [mark]];
    forall q ensures At(c, q) <= Count(more, q) {
      assert At(c, q) <= Count(edits, q);
    }
  }

  lemma JoinIssued(edits: map<Peer, seq<Stamp>>, c: Clock, d: Clock)
    requires forall q :: At(c, q) <= Count(edits, q)
    requires Issued(edits, d)
    ensures Issued(edits, Join(c, d))
  {
    forall q ensures At(Join(c, d), q) <= Count(edits, q) {
      assert At(c, q) <= Count(edits, q) && At(d, q) <= Count(edits, q);
    }
    var q :| At(d, q) > 0;
    assert At(Join(c, d), q) > 0;
  }

  lemma BumpIssued(edits: map<Peer, seq<Stamp>>, c: Clock, p: Peer, mark: Stamp)
    requires p in edits
    requires forall q :: At(c, q) <= Count(edits, q)
    ensures Issued(edits[p := edits[p] + [mark]], Bump(c, p))
  {
    var more := edits[p := edits[p] + [mark]];
    forall q ensures At(Bump(c, p), q) <= Count(more, q) {
      assert At(c, q) <= Count(edits, q);
    }
    assert At(Bump(c, p), p) > 0;
  }

  /** The three ways a step can change a peer's clock: it counts an edit, merges an announce of
      the network, or stays. */
  lemma StepShape(sys: System, step: Step)
    requires Allowed(sys, step)
    ensures step.Tick? ==> Publishes(sys, step) == sys.states[step.p]
    ensures Publishes(sys, step).Some? ==>
      Next(sys, step).states[step.p] == Publishes(sys, step) && Publishes(sys, step).value in Next(sys, step).net
    ensures var c, published := ClockOf(sys.states[step.p]), Publishes(sys, step);
      match Issues(sys, step)
      case Some(v) => published == Some(v) && v.clock == Bump(c, step.p)
      case None =>
        || published == None
        || published == sys.states[step.p]
        || (exists remote :: remote in sys.net && step.Deliver? && Announced(step.a) == Some(remote)
                             && published.value.clock == Join(c, remote.clock))
  {
    match step
    case Edit(p, content, now) =>
    case Restart(p, content, now) =>
      if sys.states[p].Some? {
        RestartIsLocalChange(sys.states[p].value, p, content.value, now);
      }
    case Tick(p) =>
    case Deliver(p, a, fetched) =>
      if Announced(a).Some? {
        assert Announced(a).value in sys.net;
      }
  }

  /** What a stored version's clock must satisfy: no progress lost, own edits counted, nothing invented. */
  ghost predicate ClockFits(edits: map<Peer, seq<Stamp>>, p: Peer, before: Clock, after: Clock) {
    p in edits && Leq(before, after) && At(after, p) == |edits[p]| && Issued(edits, after)
  }

  lemma EditFits(edits: map<Peer, seq<Stamp>>, c: Clock, p: Peer, mark: Stamp)
    requires p in edits && At(c, p) == |edits[p]|
    requires forall q :: At(c, q) <= Count(edits, q)
    ensures ClockFits(edits[p := edits[p] + [mark]], p, c, Bump(c, p))
  {
    BumpIssued(edits, c, p, mark);
  }

  lemma MergeFits(edits: map<Peer, seq<Stamp>>, c: Clock, p: Peer, d: Clock)
    requires p in edits && At(c, p) == |edits[p]|
    requires (forall q :: At(c, q) <= Count(edits, q)) && Issued(edits, d)
    ensures ClockFits(edits, p, c, Join(c, d))
  {
    JoinIssued(edits, c, d);
    MergeIsLeastUpperBound(c, d, c);
    assert At(d, p) <= Count(edits, p);
  }

  lemma HeldClockFits(sys: System, p: Peer)
    requires OwnCounts(sys) && AllIssued(sys) && p in sys.states
    ensures p in sys.edits && At(ClockOf(sys.states[p]), p) == |sys.edits[p]|
    ensures forall q :: At(ClockOf(sys.states[p]), q) <= Count(sys.edits, q)
    ensures sys.states[p].Some? ==> ClockFits(sys.edits, p, ClockOf(sys.states[p]), sys.states[p].value.clock)
  {
  }

  /** What a step does to the clock of the peer that takes it. */
  lemma StepClock(sys: System, step: Step)
    requires Discipline(sys) && Allowed(sys, step)
    requires Publishes(sys, step).Some?
    ensures ClockFits(Next(sys, step).edits, step.p, ClockOf(sys.states[step.p]), Publishes(sys, step).value.clock)
  {
    StepShape(sys, step);
    var p, v := step.p, Publishes(sys, step).value;
    HeldClockFits(sys, p);
    if Issues(sys, step).Some? {
      EditFits(sys.edits, ClockOf(sys.states[p]), p, v.Mark());
    } else if sys.states[p] != Some(v) {
      var remote :| remote in sys.net && v.clock == Join(ClockOf(sys.states[p]), remote.clock);
      MergeFits(sys.edits, ClockOf(sys.states[p]), p, remote.clock);
    }
  }

  lemma StoreKeepsOwnCounts(sys: System, p: Peer, v: Version, isEdit: bool)
    requires OwnCounts(sys) && p in sys.states
    requires At(v.clock, p) == |Store(sys, p, v, isEdit).edits[p]|
    ensures OwnCounts(Store(sys, p, v, isEdit))
  {
  }

  lemma StoreKeepsIssued(sys: System, p: Peer, v: Version, isEdit: bool)
    requires AllIssued(sys) && p in sys.edits
    requires Issued(Store(sys, p, v, isEdit).edits, v.clock)
    ensures AllIssued(Store(sys, p, v, isEdit))
  {
    var now := Store(sys, p, v, isEdit);
    forall c | Issued(sys.edits, c) ensures Issued(now.edits, c) {
      if isEdit {
        IssuedGrows(sys.edits, p, v.Mark(), c);
      }
    }
  }

  lemma StoreKeepsCovered(sys: System, p: Peer, v: Version, isEdit: bool)
    requires NetCovered(sys) && p in sys.states && p in sys.edits
    requires Leq(ClockOf(sys.states[p]), v.clock)
    ensures NetCovered(Store(sys, p, v, isEdit))
  {
    var now := Store(sys, p, v, isEdit);
    forall w | w in now.net ensures exists q :: Covers(now, q, w.clock) {
      if w == v {
        assert Covers(now, p, w.clock);
      } else {
        var q :| Covers(sys, q, w.clock);
        if q == p {
          LeqTransitive(w.clock, ClockOf(sys.states[p]), v.clock);
        }
        assert Covers(now, q, w.clock);
      }
    }
  }

  lemma StepKeepsDiscipline(sys: System, step: Step)
    requires Discipline(sys) && Allowed(sys, step)
    ensures Discipline(Next(sys, step))
  {
    if Publishes(sys, step).Some? {
      var v, isEdit := Publishes(sys, step).value, Issues(sys, step).Some?;
      StepClock(sys, step);
      assert Next(sys, step) == Store(sys, step.p, v, isEdit);
      StoreKeepsOwnCounts(sys, step.p, v, isEdit);
      StoreKeepsIssued(sys, step.p, v, isEdit);
      StoreKeepsCovered(sys, step.p, v, isEdit);
    }
  }

  /** `later` is reached from `sys` without losing edits, versions or clock progress. */
  ghost predicate Grows(sys: System, later: System) {
    && sys.states.Keys == later.states.Keys && sys.edits.Keys == later.edits.Keys
    && (forall p :: p in sys.states ==> Leq(ClockOf(sys.states[p]), ClockOf(later.states[p])))
    && (forall p :: p in sys.states && sys.states[p].Some? ==> later.states[p].Some?)
    && (forall p :: p in sys.edits ==> sys.edits[p] <= later.edits[p])
    && sys.net <= later.net
  }

  lemma GrowsTransitive(a: System, b: System, c: System)
    requires Grows(a, b) && Grows(b, c)
    ensures Grows(a, c)
  {
    forall p | p in a.states ensures Leq(ClockOf(a.states[p]), ClockOf(c.states[p])) {
      LeqTransitive(ClockOf(a.states[p]), ClockOf(b.states[p]), ClockOf(c.states[p]));
    }
  }

  lemma StoreGrows(sys: System, p: Peer, v: Version, isEdit: bool)
    requires p in sys.states && p in sys.edits && Leq(ClockOf(sys.states[p]), v.clock)
    ensures Grows(sys, Store(sys, p, v, isEdit))
  {
  }

  lemma GrowsReflexive(sys: System)
    ensures Grows(sys, sys)
  {
  }

  lemma StepGrows(sys: System, step: Step)
    requires Discipline(sys) && Allowed(sys, step)
    ensures Grows(sys, Next(sys, step))
  {
    if Publishes(sys, step).Some? {
      StepClock(sys, step);
      StoreGrows(sys, step.p, Publishes(sys, step).value, Issues(sys, step).Some?);
    } else {
      GrowsReflexive(sys);
    }
  }

  /** Over any run the discipline holds and no peer's clock ever decreases. */
  lemma {:induction false} RunKeepsDiscipline(sys: System, steps: seq<Step>)
    requires Discipline(sys) && AllowedRun(sys, steps)
    ensures Discipline(Exec(sys, steps)) && Grows(sys, Exec(sys, steps))
    decreases |steps|
  {
    if steps != [] {
      var now := Next(sys, steps[0]);
      StepKeepsDiscipline(sys, steps[0]);
      StepGrows(sys, steps[0]);
      RunKeepsDiscipline(now, steps[1..]);
      GrowsTransitive(sys, now, Exec(now, steps[1..]));
    }
  }

  /** Clock discipline from the start, for every run: own counters count own edits, no clock
      mentions a counter its author has not issued, and between any two points of the run clocks
      only grow. */
  lemma ClockDiscipline(sys: System, before: seq<Step>, after: seq<Step>)
    requires Initial(sys) && AllowedRun(sys, before) && AllowedRun(Exec(sys, before), after)
    ensures var mid := Exec(sys, before);
      var last := Exec(mid, after);
      && Grows(mid, last)
      && OwnCounts(last)
      && forall v, q :: Holds(last, v) ==> At(v.clock, q) <= Count(last.edits, q)
  {
    RunKeepsDiscipline(sys, before);
    RunKeepsDiscipline(Exec(sys, before), after);
    var last := Exec(Exec(sys, before), after);
    forall v, q | Holds(last, v) ensures At(v.clock, q) <= Count(last.edits, q) {
      assert Issued(last.edits, v.clock);
    }
  }

  /** No (peer, counter) pair is used twice: an edit's own counter is above every counter of that
      peer that any state or announce has carried. */
  lemma EditUsesFreshCounter(sys: System, step: Step, v: Version)
    requires Discipline(sys) && Allowed(sys, step) && Issues(sys, step).Some?
    requires Holds(sys, v)
    ensures At(v.clock, step.p) < At(Issues(sys, step).value.clock, step.p)
    ensures At(Issues(sys, step).value.clock, step.p) == |Next(sys, step).edits[step.p]|
  {
    StepShape(sys, step);
    StepClock(sys, step);
    assert Issued(sys.edits, v.clock);
    assert At(v.clock, step.p) <= Count(sys.edits, step.p);
  }
}
