/** Causal delivery: what is applied is the least fixpoint of "all dependencies applied" over what
    was delivered, in whatever order it came. */
module AuthCausal {
  import opened Results
  import opened AuthLog

  /** A log that could have been built one ready, new, verified operation at a time. */
  ghost predicate GoodLog<C>(lib: Library<C>, ops: seq<SignedOp>) {
    ops == [] ||
    var (before, last) := (ops[..|ops| - 1], ops[|ops| - 1]);
    && GoodLog(lib, before)
    && Ready(lib, Ids(lib, before), last)
    && lib.id(last) !in Ids(lib, before)
    && lib.verifies(last)
  }

  /** The CRDT state of a log, absent when the library fails on the way. */
  ghost function Replay<C>(lib: Library<C>, ops: seq<SignedOp>): Option<C> {
    if ops == [] then Some(lib.empty)
    else
      match Replay(lib, ops[..|ops| - 1])
      case None => None
      case Some(c) => lib.process(c, ops[|ops| - 1])
  }

  /** The library succeeds on causally ready operations. */
  ghost predicate Succeeds<C(!new)>(lib: Library<C>) {
    forall ops: seq<SignedOp>, op: SignedOp {:trigger GoodLog(lib, ops + [op])} ::
      GoodLog(lib, ops) && GoodLog(lib, ops + [op]) && Replay(lib, ops).Some? ==>
        lib.process(Replay(lib, ops).value, op).Some?
  }

  /** The content hash has no collisions. */
  ghost predicate Injective<C>(lib: Library<C>) {
    forall a: SignedOp, b: SignedOp :: lib.id(a) == lib.id(b) ==> a == b
  }

  ghost predicate PendingOk<C>(lib: Library<C>, ops: seq<SignedOp>, pending: seq<SignedOp>) {
    && (forall i :: 0 <= i < |pending| ==> lib.verifies(pending[i]) && lib.id(pending[i]) !in Ids(lib, ops))
    && (forall i, j :: 0 <= i < j < |pending| ==> lib.id(pending[i]) != lib.id(pending[j]))
  }

  /** Nothing pending is ready. */
  ghost predicate Settled<C>(lib: Library<C>, log: Log<C>) {
    forall p :: p in log.pending ==> !Ready(lib, Ids(lib, log.ops), p)
  }

  /** The invariant of the log, apart from `Settled`, which breaks while the log drains. */
  ghost predicate Sound<C>(lib: Library<C>, log: Log<C>) {
    && GoodLog(lib, log.ops)
    && PendingOk(lib, log.ops, log.pending)
    && Replay(lib, log.ops) == Some(log.crdt)
  }

  ghost function Everything<C>(log: Log<C>): set<SignedOp> {
    set o | o in log.ops + log.pending
  }

  lemma AppendKeepsGood<C>(lib: Library<C>, ops: seq<SignedOp>, op: SignedOp)
    requires GoodLog(lib, ops) && Ready(lib, Ids(lib, ops), op)
    requires lib.id(op) !in Ids(lib, ops) && lib.verifies(op)
    ensures GoodLog(lib, ops + [op])
    ensures Replay(lib, ops + [op]) ==
            match Replay(lib, ops) case None => None case Some(c) => lib.process(c, op)
  {
    assert (ops + [op])[..|ops|] == ops;
  }

  lemma IdsOfAppend<C>(lib: Library<C>, ops: seq<SignedOp>, more: seq<SignedOp>)
    ensures Ids(lib, ops + more) == Ids(lib, ops) + Ids(lib, more)
  {
    forall d | d in Ids(lib, ops) + Ids(lib, more) ensures d in Ids(lib, ops + more) {
      var o :| (o in ops || o in more) && lib.id(o) == d;
      assert o in ops + more;
    }
  }

  /** Processing a ready, new operation succeeds and keeps the log sound. */
  lemma ProcessIsSound<C(!new)>(lib: Library<C>, log: Log<C>, op: SignedOp)
    requires Succeeds(lib) && Sound(lib, log) && lib.verifies(op)
    requires Ready(lib, Ids(lib, log.ops), op)
    requires lib.id(op) !in Ids(lib, log.ops) && lib.id(op) !in Ids(lib, log.pending)
    ensures var (next, ok) := Process(lib, log, op);
      ok && Sound(lib, next) && next.ops == log.ops + [op] && next.pending == log.pending
  {
    AppendKeepsGood(lib, log.ops, op);
    IdsOfAppend(lib, log.ops, [op]);
    assert GoodLog(lib, log.ops + [op]);
    var (next, ok) := Process(lib, log, op);
    forall i | 0 <= i < |log.pending| ensures lib.id(log.pending[i]) !in Ids(lib, next.ops) {
      assert lib.id(log.pending[i]) in Ids(lib, log.pending);
    }
  }

  lemma TakeOutPending<C>(lib: Library<C>, log: Log<C>, i: nat)
    requires Sound(lib, log) && i < |log.pending|
    ensures var rest := TakeOut(log, i);
      && Sound(lib, rest)
      && lib.id(log.pending[i]) !in Ids(lib, rest.pending)
      && log.pending == log.pending[..i] + [log.pending[i]] + log.pending[i + 1..]
      && Everything(log) == Everything(rest) + {log.pending[i]}
  {
    var rest := log.pending[..i] + log.pending[i + 1..];
    assert log.pending == log.pending[..i] + [log.pending[i]] + log.pending[i + 1..];
    forall k | 0 <= k < |rest|
      ensures rest[k] == log.pending[if k < i then k else k + 1]
    {
    }
  }

  /** One round of the drain loop. */
  lemma DrainRound<C(!new)>(lib: Library<C>, log: Log<C>, i: nat)
    requires Succeeds(lib) && Sound(lib, log) && i < |log.pending|
    requires Ready(lib, Ids(lib, log.ops), log.pending[i])
    ensures var (next, ok) := Process(lib, TakeOut(log, i), log.pending[i]);
      && ok && Sound(lib, next) && Everything(next) == Everything(log)
      && log.ops <= next.ops && |next.pending| < |log.pending|
  {
    var op := log.pending[i];
    var rest := TakeOut(log, i);
    TakeOutPending(lib, log, i);
    ProcessIsSound(lib, rest, op);
    var next := Process(lib, rest, op).0;
    assert Everything(next) == Everything(rest) + {op};
  }

  lemma NothingReady<C>(lib: Library<C>, log: Log<C>)
    requires FirstReady(lib, Ids(lib, log.ops), log.pending) == |log.pending|
    ensures Settled(lib, log)
  {
    forall p | p in log.pending ensures !Ready(lib, Ids(lib, log.ops), p) {
      var j :| 0 <= j < |log.pending| && log.pending[j] == p;
    }
  }

  /** Draining ends with a settled log and neither loses nor invents operations. */
  lemma {:induction false} DrainSettles<C(!new)>(lib: Library<C>, log: Log<C>)
    requires Succeeds(lib) && Sound(lib, log)
    ensures var (last, ok) := Drain(lib, log);
      && ok && Sound(lib, last) && Settled(lib, last)
      && log.ops <= last.ops && Everything(last) == Everything(log)
    decreases |log.pending|
  {
    var i := FirstReady(lib, Ids(lib, log.ops), log.pending);
    if i < |log.pending| {
      DrainRound(lib, log, i);
      DrainSettles(lib, Process(lib, TakeOut(log, i), log.pending[i]).0);
    } else {
      NothingReady(lib, log);
    }
  }

  lemma HoldIsSound<C>(lib: Library<C>, log: Log<C>, op: SignedOp)
    requires Sound(lib, log) && Settled(lib, log) && lib.verifies(op)
    requires lib.id(op) !in Ids(lib, log.ops) + Ids(lib, log.pending)
    requires !Ready(lib, Ids(lib, log.ops), op)
    ensures var held := log.(pending := log.pending + [op]);
      Sound(lib, held) && Settled(lib, held) && Everything(held) == Everything(log) + {op}
  {
    forall i | 0 <= i < |log.pending| ensures lib.id(log.pending[i]) != lib.id(op) {
      assert lib.id(log.pending[i]) in Ids(lib, log.pending);
    }
  }

  /** One delivery keeps the invariant and adds exactly the delivered operation, unless it fails
      verification or its id is known already. `true` is returned exactly when the log grew. */
  lemma ApplyDelivers<C(!new)>(lib: Library<C>, log: Log<C>, op: SignedOp)
    requires Succeeds(lib) && Sound(lib, log) && Settled(lib, log)
    ensures var (next, verdict) := Apply(lib, log, op);
      && Sound(lib, next) && Settled(lib, next) && log.ops <= next.ops
      && (verdict == Applied <==> next.ops != log.ops)
      && (verdict == Rejected <==> !lib.verifies(op))
      && Everything(next) == Everything(log) +
           (if lib.verifies(op) && lib.id(op) !in Ids(lib, log.ops + log.pending) then {op} else {})
  {
    IdsOfAppend(lib, log.ops, log.pending);
    if lib.verifies(op) && lib.id(op) !in Ids(lib, log.ops) + Ids(lib, log.pending) {
      if Ready(lib, Ids(lib, log.ops), op) {
        ProcessIsSound(lib, log, op);
        var (next, ok) := Process(lib, log, op);
        assert Everything(next) == Everything(log) + {op};
        DrainSettles(lib, next);
      } else {
        HoldIsSound(lib, log, op);
      }
    }
  }

  /** The four outcomes of a delivery, told by what the log holds. An operation that must wait goes to the
      end of the pending ones; one that need not goes first onto the log. */
  lemma ApplyDecides<C(!new)>(lib: Library<C>, log: Log<C>, op: SignedOp)
    requires Succeeds(lib) && Sound(lib, log) && Settled(lib, log)
    ensures var known := exists o :: o in log.ops + log.pending && lib.id(o) == lib.id(op);
      var ready := forall d :: d in op.deps ==> exists o :: o in log.ops && lib.id(o) == d;
      var (next, verdict) := Apply(lib, log, op);
      if !lib.verifies(op) then next == log && verdict == Rejected
      else if known then next == log && verdict == Held
      else if !ready then next == log.(pending := log.pending + [op]) && verdict == Held
      else log.ops + [op] <= next.ops && verdict == Applied
  {
    IdsOfAppend(lib, log.ops, log.pending);
    assert forall d :: d in Ids(lib, log.ops) <==> exists o :: o in log.ops && lib.id(o) == d;
    if lib.verifies(op) && lib.id(op) !in Ids(lib, log.ops + log.pending) && Ready(lib, Ids(lib, log.ops), op) {
      ProcessIsSound(lib, log, op);
      DrainSettles(lib, Process(lib, log, op).0);
    }
  }

  /** Of the pending operations that are ready, the one held longest is applied first. */
  lemma DrainTakesFirst<C(!new)>(lib: Library<C>, log: Log<C>, i: nat)
    requires Succeeds(lib) && Sound(lib, log) && i < |log.pending|
    requires Ready(lib, Ids(lib, log.ops), log.pending[i])
    requires forall j :: 0 <= j < i ==> !Ready(lib, Ids(lib, log.ops), log.pending[j])
    ensures log.ops + [log.pending[i]] <= Drain(lib, log).0.ops
  {
    var first := FirstReady(lib, Ids(lib, log.ops), log.pending);
    assert first == i;
    TakeOutPending(lib, log, i);
    ProcessIsSound(lib, TakeOut(log, i), log.pending[i]);
    DrainSettles(lib, Process(lib, TakeOut(log, i), log.pending[i]).0);
  }

  // ---- Runs ----

  datatype Event = Received(op: SignedOp) | Authored(op: SignedOp)

  ghost function After<C>(lib: Library<C>, log: Log<C>, e: Event): Log<C> {
    match e
    case Received(op) => Apply(lib, log, op).0
    case Authored(op) => Process(lib, log, op).0
  }

  /** A local operation is signed, depends on applied operations, and its id is new to everyone, so
      that no pending operation depends on it. */
  ghost predicate MayHappen<C>(lib: Library<C>, log: Log<C>, e: Event) {
    e.Authored? ==>
      && lib.verifies(e.op)
      && Ready(lib, Ids(lib, log.ops), e.op)
      && NewTo(lib, log, lib.id(e.op))
  }

  /** No operation of the log has the id or depends on it. */
  ghost predicate NewTo<C>(lib: Library<C>, log: Log<C>, id: OpId) {
    && id !in Ids(lib, log.ops) + Ids(lib, log.pending)
    && forall p :: p in log.pending ==> id !in p.deps
  }

  ghost predicate MayRun<C>(lib: Library<C>, log: Log<C>, es: seq<Event>)
    decreases |es|
  {
    es == [] || (MayHappen(lib, log, es[0]) && MayRun(lib, After(lib, log, es[0]), es[1..]))
  }

  ghost function Run<C>(lib: Library<C>, log: Log<C>, es: seq<Event>): Log<C>
    decreases |es|
  {
    if es == [] then log else Run(lib, After(lib, log, es[0]), es[1..])
  }

  /** The verified operations of a run. */
  ghost function Delivered<C>(lib: Library<C>, es: seq<Event>): set<SignedOp> {
    set e | e in es && lib.verifies(e.op) :: e.op
  }

  lemma EverythingIsKnown<C>(lib: Library<C>, log: Log<C>, op: SignedOp)
    requires Injective(lib)
    ensures op in Everything(log) <==> lib.id(op) in Ids(lib, log.ops + log.pending)
  {
    if lib.id(op) in Ids(lib, log.ops + log.pending) {
      var o :| o in log.ops + log.pending && lib.id(o) == lib.id(op);
      assert o == op;
    }
  }

  lemma AuthoredKeepsInvariant<C(!new)>(lib: Library<C>, log: Log<C>, op: SignedOp)
    requires Succeeds(lib) && Sound(lib, log) && Settled(lib, log) && MayHappen(lib, log, Authored(op))
    ensures var next := Process(lib, log, op).0;
      && Sound(lib, next) && Settled(lib, next) && next.ops == log.ops + [op]
      && Everything(next) == Everything(log) + {op}
  {
    var next := Process(lib, log, op).0;
    ProcessIsSound(lib, log, op);
    IdsOfAppend(lib, log.ops, [op]);
    forall p | p in next.pending ensures !Ready(lib, Ids(lib, next.ops), p) {
      var d :| d in p.deps && d !in Ids(lib, log.ops);
      assert d != lib.id(op);
    }
  }

  lemma DeliveredByOne<C>(lib: Library<C>, e: Event)
    ensures Delivered(lib, [e]) == if lib.verifies(e.op) then {e.op} else {}
  {
    assert e in [e];
  }

  lemma DeliveredSplits<C>(lib: Library<C>, es: seq<Event>)
    requires es != []
    ensures Delivered(lib, es) == Delivered(lib, [es[0]]) + Delivered(lib, es[1..])
  {
    assert es == [es[0]] + es[1..];
  }

  /** What one event of a run must keep and add. */
  ghost predicate Extends<C>(lib: Library<C>, log: Log<C>, next: Log<C>, more: set<SignedOp>) {
    && Sound(lib, next) && Settled(lib, next) && log.ops <= next.ops
    && Everything(next) == Everything(log) + more
  }

  lemma EventKeepsInvariant<C(!new)>(lib: Library<C>, log: Log<C>, e: Event)
    requires Succeeds(lib) && Injective(lib) && Sound(lib, log) && Settled(lib, log) && MayHappen(lib, log, e)
    ensures Extends(lib, log, After(lib, log, e), Delivered(lib, [e]))
  {
    DeliveredByOne(lib, e);
    match e
    case Received(op) =>
      ApplyDelivers(lib, log, op);
      EverythingIsKnown(lib, log, op);
    case Authored(op) =>
      AuthoredKeepsInvariant(lib, log, op);
  }

  lemma ExtendsTransitive<C>(lib: Library<C>, a: Log<C>, b: Log<C>, c: Log<C>, x: set<SignedOp>, y: set<SignedOp>)
    requires Extends(lib, a, b, x) && Extends(lib, b, c, y)
    ensures Extends(lib, a, c, x + y)
  {
  }

  lemma {:induction false} RunKeepsInvariant<C(!new)>(lib: Library<C>, log: Log<C>, es: seq<Event>)
    requires Succeeds(lib) && Injective(lib) && Sound(lib, log) && Settled(lib, log) && MayRun(lib, log, es)
    ensures Extends(lib, log, Run(lib, log, es), Delivered(lib, es))
    decreases |es|
  {
    if es == [] {
      assert Delivered(lib, es) == {};
    } else {
      var next := After(lib, log, es[0]);
      EventKeepsInvariant(lib, log, es[0]);
      RunKeepsInvariant(lib, next, es[1..]);
      DeliveredSplits(lib, es);
      ExtendsTransitive(lib, log, next, Run(lib, next, es[1..]), Delivered(lib, [es[0]]), Delivered(lib, es[1..]));
    }
  }

  // ---- The least fixpoint ----

  /** Closed under "apply an operation of `ops` whose dependencies are in". */
  ghost predicate ClosedUnder<C>(lib: Library<C>, ops: set<SignedOp>, applied: set<OpId>) {
    forall o :: o in ops && Ready(lib, applied, o) ==> lib.id(o) in applied
  }

  ghost predicate LeastClosed<C>(lib: Library<C>, ops: set<SignedOp>, applied: set<OpId>) {
    && ClosedUnder(lib, ops, applied)
    && forall other: set<OpId> :: ClosedUnder(lib, ops, other) ==> applied <= other
  }

  lemma {:induction false} GoodLogIsWithin<C>(lib: Library<C>, ops: seq<SignedOp>, all: set<SignedOp>, closed: set<OpId>)
    requires GoodLog(lib, ops) && ClosedUnder(lib, all, closed)
    requires forall o :: o in ops ==> o in all
    ensures Ids(lib, ops) <= closed
  {
    if ops != [] {
      var before, last := ops[..|ops| - 1], ops[|ops| - 1];
      GoodLogIsWithin(lib, before, all, closed);
      assert ops == before + [last];
      IdsOfAppend(lib, before, [last]);
    }
  }

  lemma SettledIsLeast<C>(lib: Library<C>, log: Log<C>)
    requires Sound(lib, log) && Settled(lib, log)
    ensures LeastClosed(lib, Everything(log), Ids(lib, log.ops))
  {
    forall other: set<OpId> | ClosedUnder(lib, Everything(log), other) ensures Ids(lib, log.ops) <= other {
      GoodLogIsWithin(lib, log.ops, Everything(log), other);
    }
  }

  /** After any run from the empty log, the applied ids are the least fixpoint over the delivered
      operations, the log lists each once after its dependencies, and exactly the rest is pending. */
  lemma AppliedIsLeastFixpoint<C(!new)>(lib: Library<C>, es: seq<Event>)
    requires Succeeds(lib) && Injective(lib) && MayRun(lib, EmptyLog(lib), es)
    ensures var log := Run(lib, EmptyLog(lib), es);
      && LeastClosed(lib, Delivered(lib, es), Ids(lib, log.ops))
      && GoodLog(lib, log.ops)
      && Replay(lib, log.ops) == Some(log.crdt)
      && (forall o :: o in log.pending <==> o in Delivered(lib, es) && lib.id(o) !in Ids(lib, log.ops))
      && (forall o :: o in log.ops <==> o in Delivered(lib, es) && lib.id(o) in Ids(lib, log.ops))
  {
    var log := Run(lib, EmptyLog(lib), es);
    RunKeepsInvariant(lib, EmptyLog(lib), es);
    SettledIsLeast(lib, log);
    assert Everything(EmptyLog(lib)) == {};
    assert Everything(log) == Delivered(lib, es);
    forall o | o in log.pending ensures lib.id(o) !in Ids(lib, log.ops) {
      var i :| 0 <= i < |log.pending| && log.pending[i] == o;
    }
    forall o | o in Everything(log) && lib.id(o) in Ids(lib, log.ops) ensures o in log.ops {
      var p :| p in log.ops && lib.id(p) == lib.id(o);
      assert p == o;
    }
  }

  /** A failing library call leaves an empty CRDT beside the log: the two stay in step exactly when
      the call succeeds or the CRDT was the empty one already. */
  lemma ProcessKeepsCrdtIff<C>(lib: Library<C>, log: Log<C>, op: SignedOp)
    requires Replay(lib, log.ops) == Some(log.crdt)
    ensures var (next, ok) := Process(lib, log, op);
      Replay(lib, next.ops) == Some(next.crdt) <==> lib.process(log.crdt, op).Some? || log.crdt == lib.empty
  {
    assert (log.ops + [op])[..|log.ops|] == log.ops;
  }
}
