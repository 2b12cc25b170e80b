/** Anti-entropy: peers send each other the operations they have applied, and do so again on every
    announce tick (src/daemon.rs). What one exchange achieves, and that repeating it converges. */
module AuthExchange {
  import opened Results
  import opened AuthLog
  import opened AuthCausal
  import opened AuthOrder

  ghost function AsSet(ops: seq<SignedOp>): set<SignedOp> {
    set o | o in ops
  }

  function Snapshot(ops: seq<SignedOp>): seq<Option<SignedOp>> {
    seq(|ops|, i requires 0 <= i < |ops| => Some(ops[i]))
  }

  /** The verified operations of a payload. */
  function Decoded<C>(lib: Library<C>, payload: seq<Option<SignedOp>>): set<SignedOp> {
    set o | o in payload && o.Some? && lib.verifies(o.value) :: o.value
  }

  function AfterEntry<C>(lib: Library<C>, log: Log<C>, entry: Option<SignedOp>): (Log<C>, Verdict) {
    if entry.Some? then Apply(lib, log, entry.value) else (log, Rejected)
  }

  lemma EntryDelivers<C(!new)>(lib: Library<C>, log: Log<C>, entry: Option<SignedOp>)
    requires Succeeds(lib) && Injective(lib) && Sound(lib, log) && Settled(lib, log)
    ensures Extends(lib, log, AfterEntry(lib, log, entry).0, Decoded(lib, [entry]))
    ensures AfterEntry(lib, log, entry).1 == Applied <==> AfterEntry(lib, log, entry).0.ops != log.ops
  {
    assert Decoded(lib, [entry]) == if entry.Some? && lib.verifies(entry.value) then {entry.value} else {} by {
      assert entry in [entry];
    }
    if entry.Some? {
      ApplyDelivers(lib, log, entry.value);
      EverythingIsKnown(lib, log, entry.value);
    }
  }

  lemma DecodedSplits<C>(lib: Library<C>, payload: seq<Option<SignedOp>>)
    requires payload != []
    ensures Decoded(lib, payload) == Decoded(lib, [payload[0]]) + Decoded(lib, payload[1..])
  {
    assert payload == [payload[0]] + payload[1..];
  }

  lemma PrefixesMeet(a: seq<SignedOp>, b: seq<SignedOp>, c: seq<SignedOp>)
    requires a <= b <= c
    ensures a == c <==> a == b && b == c
  {
  }

  /** What a payload does to a log, decodable or not. The count is positive exactly when it grew. */
  lemma {:induction false} PayloadDelivers<C(!new)>(lib: Library<C>, log: Log<C>, payload: seq<Option<SignedOp>>)
    requires Succeeds(lib) && Injective(lib) && Sound(lib, log) && Settled(lib, log)
    ensures Extends(lib, log, ApplyAll(lib, log, payload).0, Decoded(lib, payload))
    ensures ApplyAll(lib, log, payload).1 > 0 <==> ApplyAll(lib, log, payload).0.ops != log.ops
    decreases |payload|
  {
    if payload == [] {
      assert Decoded(lib, payload) == {};
    } else {
      var next := AfterEntry(lib, log, payload[0]).0;
      EntryDelivers(lib, log, payload[0]);
      PayloadDelivers(lib, next, payload[1..]);
      var last := ApplyAll(lib, next, payload[1..]).0;
      DecodedSplits(lib, payload);
      ExtendsTransitive(lib, log, next, last, Decoded(lib, [payload[0]]), Decoded(lib, payload[1..]));
      PrefixesMeet(log.ops, next.ops, last.ops);
    }
  }

  /** The count of a payload goes up by one with every entry that makes the log grow. */
  lemma {:induction false} PayloadCounts<C(!new)>(lib: Library<C>, log: Log<C>, payload: seq<Option<SignedOp>>, entry: Option<SignedOp>)
    requires Succeeds(lib) && Injective(lib) && Sound(lib, log) && Settled(lib, log)
    ensures var (before, n) := ApplyAll(lib, log, payload);
      var (after, m) := ApplyAll(lib, log, payload + [entry]);
      && after == AfterEntry(lib, before, entry).0
      && m == n + if after.ops != before.ops then 1 else 0
    decreases |payload|
  {
    if payload == [] {
      assert payload + [entry] == [entry] && [entry][1..] == [];
      EntryDelivers(lib, log, entry);
      assert ApplyAll(lib, AfterEntry(lib, log, entry).0, []) == (AfterEntry(lib, log, entry).0, 0);
    } else {
      assert (payload + [entry])[1..] == payload[1..] + [entry];
      EntryDelivers(lib, log, payload[0]);
      PayloadCounts(lib, AfterEntry(lib, log, payload[0]).0, payload[1..], entry);
    }
  }

  /** After applying a sender's snapshot the receiver has applied all of it, even operations that
      were already pending. */
  lemma SnapshotIsApplied<C(!new)>(lib: Library<C>, log: Log<C>, ops: seq<SignedOp>)
    requires Succeeds(lib) && Injective(lib) && Sound(lib, log) && Settled(lib, log) && GoodLog(lib, ops)
    ensures var last := ApplyAll(lib, log, Snapshot(ops)).0;
      && Ids(lib, log.ops) + Ids(lib, ops) <= Ids(lib, last.ops)
      && Everything(last) == Everything(log) + AsSet(ops)
  {
    var last := ApplyAll(lib, log, Snapshot(ops)).0;
    PayloadDelivers(lib, log, Snapshot(ops));
    SnapshotDecodes(lib, ops);
    SettledIsLeast(lib, last);
    GoodLogIsWithin(lib, ops, Everything(last), Ids(lib, last.ops));
    PrefixIds(lib, log.ops, last.ops);
  }

  lemma PrefixIds<C>(lib: Library<C>, a: seq<SignedOp>, b: seq<SignedOp>)
    requires a <= b
    ensures Ids(lib, a) <= Ids(lib, b)
  {
    assert b == a + b[|a|..];
    IdsOfAppend(lib, a, b[|a|..]);
  }

  lemma SnapshotDecodes<C>(lib: Library<C>, ops: seq<SignedOp>)
    requires GoodLog(lib, ops)
    ensures Decoded(lib, Snapshot(ops)) == AsSet(ops)
  {
    forall o | o in ops ensures lib.verifies(o) && Some(o) in Snapshot(ops) {
      GoodOpsVerify(lib, ops, o);
      var i :| 0 <= i < |ops| && ops[i] == o;
      assert Snapshot(ops)[i] == Some(o);
    }
    assert forall o :: Some(o) in Snapshot(ops) ==> o in ops;
  }

  lemma {:induction false} GoodOpsVerify<C>(lib: Library<C>, ops: seq<SignedOp>, o: SignedOp)
    requires GoodLog(lib, ops) && o in ops
    ensures lib.verifies(o)
  {
    var before, last := ops[..|ops| - 1], ops[|ops| - 1];
    assert ops == before + [last];
    if o != last {
      GoodOpsVerify(lib, before, o);
    }
  }

  /** Some pending operation outside `known` becomes ready under `known`. */
  ghost predicate Unblocks<C>(lib: Library<C>, log: Log<C>, known: set<OpId>) {
    exists p :: p in log.pending && Ready(lib, known, p) && lib.id(p) !in known
  }

  lemma UnionIsClosed<C>(lib: Library<C>, log: Log<C>, ops: seq<SignedOp>, all: set<SignedOp>)
    requires all == Everything(log) + AsSet(ops)
    requires !Unblocks(lib, log, Ids(lib, log.ops) + Ids(lib, ops))
    ensures ClosedUnder(lib, all, Ids(lib, log.ops) + Ids(lib, ops))
  {
    var union := Ids(lib, log.ops) + Ids(lib, ops);
    forall o | o in all && Ready(lib, union, o) ensures lib.id(o) in union {
      if o !in log.ops && o !in ops {
        assert o in log.pending;
      }
    }
  }

  lemma LeastIsUnionIff<C>(lib: Library<C>, log: Log<C>, all: set<SignedOp>, applied: set<OpId>, union: set<OpId>)
    requires LeastClosed(lib, all, applied) && union <= applied && Everything(log) <= all
    requires !Unblocks(lib, log, union) ==> ClosedUnder(lib, all, union)
    ensures applied == union <==> !Unblocks(lib, log, union)
  {
    if Unblocks(lib, log, union) {
      var p :| p in log.pending && Ready(lib, union, p) && lib.id(p) !in union;
      assert p in Everything(log);
    }
  }

  lemma ReceiverEndsWithUnionIff<C(!new)>(lib: Library<C>, log: Log<C>, ops: seq<SignedOp>)
    requires Succeeds(lib) && Injective(lib) && Sound(lib, log) && Settled(lib, log) && GoodLog(lib, ops)
    ensures Ids(lib, ApplyAll(lib, log, Snapshot(ops)).0.ops) == Ids(lib, log.ops) + Ids(lib, ops) <==>
            !Unblocks(lib, log, Ids(lib, log.ops) + Ids(lib, ops))
  {
    SnapshotIsApplied(lib, log, ops);
    var last := ApplyAll(lib, log, Snapshot(ops)).0;
    var union, all := Ids(lib, log.ops) + Ids(lib, ops), Everything(last);
    PayloadDelivers(lib, log, Snapshot(ops));
    SettledIsLeast(lib, last);
    if !Unblocks(lib, log, union) {
      UnionIsClosed(lib, log, ops, all);
    }
    LeastIsUnionIff(lib, log, all, Ids(lib, last.ops), union);
  }

  /** Two peers exchange the snapshots of their logs. Each then has the union and possibly more;
      both have exactly the union, hence the same applied set and the same CRDT state, if and only
      if the union unblocks no pending operation on either side. */
  lemma MutualExchange<C(!new)>(lib: Library<C>, a: Log<C>, b: Log<C>)
    requires Succeeds(lib) && Injective(lib) && ConcurrentCommute(lib)
    requires Sound(lib, a) && Settled(lib, a) && Sound(lib, b) && Settled(lib, b)
    ensures var union := Ids(lib, a.ops) + Ids(lib, b.ops);
      var a', b' := ApplyAll(lib, a, Snapshot(b.ops)).0, ApplyAll(lib, b, Snapshot(a.ops)).0;
      && union <= Ids(lib, a'.ops) && union <= Ids(lib, b'.ops)
      && (Ids(lib, a'.ops) == union == Ids(lib, b'.ops) <==> !Unblocks(lib, a, union) && !Unblocks(lib, b, union))
      && (Ids(lib, a'.ops) == Ids(lib, b'.ops) ==> a'.crdt == b'.crdt)
  {
    var union := Ids(lib, a.ops) + Ids(lib, b.ops);
    assert union == Ids(lib, b.ops) + Ids(lib, a.ops);
    var a', b' := ApplyAll(lib, a, Snapshot(b.ops)).0, ApplyAll(lib, b, Snapshot(a.ops)).0;
    ReceiverEndsWithUnionIff(lib, a, b.ops);
    ReceiverEndsWithUnionIff(lib, b, a.ops);
    SnapshotIsApplied(lib, a, b.ops);
    SnapshotIsApplied(lib, b, a.ops);
    PayloadDelivers(lib, a, Snapshot(b.ops));
    PayloadDelivers(lib, b, Snapshot(a.ops));
    if Ids(lib, a'.ops) == Ids(lib, b'.ops) {
      CausalOrdersFoldEqually(lib, a'.ops, b'.ops);
    }
  }

  // ---- When one exchange makes two peers agree ----

  /** A settled log that knows the operations `all`. */
  ghost predicate Reached<C>(lib: Library<C>, log: Log<C>, all: set<SignedOp>) {
    Everything(log) == all && GoodLog(lib, log.ops) && LeastClosed(lib, all, Ids(lib, log.ops))
  }

  lemma SnapshotReaches<C(!new)>(lib: Library<C>, log: Log<C>, ops: seq<SignedOp>)
    requires Succeeds(lib) && Injective(lib) && Sound(lib, log) && Settled(lib, log) && GoodLog(lib, ops)
    ensures Reached(lib, ApplyAll(lib, log, Snapshot(ops)).0, Everything(log) + AsSet(ops))
  {
    SnapshotIsApplied(lib, log, ops);
    PayloadDelivers(lib, log, Snapshot(ops));
    SettledIsLeast(lib, ApplyAll(lib, log, Snapshot(ops)).0);
  }

  /** The ids obtained from `known` by applying ready operations of `ops` until none is left. */
  ghost function Closure<C>(lib: Library<C>, ops: set<SignedOp>, known: set<OpId>): set<OpId>
    decreases |ops|
  {
    if exists p :: p in ops && Ready(lib, known, p) then
      var p :| p in ops && Ready(lib, known, p);
      Closure(lib, ops - {p}, known + {lib.id(p)})
    else known
  }

  lemma {:induction false} ClosureIsClosed<C>(lib: Library<C>, ops: set<SignedOp>, known: set<OpId>)
    ensures known <= Closure(lib, ops, known) && ClosedUnder(lib, ops, Closure(lib, ops, known))
    decreases |ops|
  {
    if exists p :: p in ops && Ready(lib, known, p) {
      var p :| p in ops && Ready(lib, known, p) && Closure(lib, ops, known) == Closure(lib, ops - {p}, known + {lib.id(p)});
      ClosureIsClosed(lib, ops - {p}, known + {lib.id(p)});
    }
  }

  lemma {:induction false} ClosureIsWithin<C>(lib: Library<C>, ops: set<SignedOp>, known: set<OpId>, other: set<OpId>)
    requires known <= other && ClosedUnder(lib, ops, other)
    ensures Closure(lib, ops, known) <= other
    decreases |ops|
  {
    if exists p :: p in ops && Ready(lib, known, p) {
      var p :| p in ops && Ready(lib, known, p) && Closure(lib, ops, known) == Closure(lib, ops - {p}, known + {lib.id(p)});
      assert Ready(lib, other, p);
      ClosureIsWithin(lib, ops - {p}, known + {lib.id(p)}, other);
    }
  }

  lemma ClosureIsLeast<C>(lib: Library<C>, ops: set<SignedOp>)
    ensures LeastClosed(lib, ops, Closure(lib, ops, {}))
  {
    ClosureIsClosed(lib, ops, {});
    forall other: set<OpId> | ClosedUnder(lib, ops, other) ensures Closure(lib, ops, {}) <= other {
      ClosureIsWithin(lib, ops, {}, other);
    }
  }

  /** What both peers know once the snapshots have crossed. */
  ghost function Shared<C>(a: Log<C>, b: Log<C>): set<SignedOp> {
    AsSet(a.ops) + AsSet(b.ops) + Everything(a) * Everything(b)
  }

  /** What only one of them knows even then. */
  ghost function OneSided<C>(a: Log<C>, b: Log<C>): set<SignedOp> {
    Everything(a) + Everything(b) - Shared(a, b)
  }

  /** Some operation only one peer knows becomes ready from what both know. */
  ghost predicate GoesOnAlone<C>(lib: Library<C>, oneSided: set<SignedOp>, known: set<OpId>) {
    exists p :: p in oneSided && Ready(lib, known, p)
  }

  lemma AppliedOpIsIn<C>(lib: Library<C>, log: Log<C>, p: SignedOp)
    requires Injective(lib) && lib.id(p) in Ids(lib, log.ops)
    ensures p in log.ops
  {
    var o :| o in log.ops && lib.id(o) == lib.id(p);
    assert o == p;
  }

  /** The ids applied from `all` are at least those applied from a part of it. */
  lemma PartIsBelow<C>(lib: Library<C>, part: set<SignedOp>, known: set<OpId>, all: set<SignedOp>, applied: set<OpId>)
    requires part <= all && LeastClosed(lib, part, known) && LeastClosed(lib, all, applied)
    ensures known <= applied
  {
  }

  lemma NothingAloneIsEqual<C>(lib: Library<C>, shared: set<SignedOp>, known: set<OpId>, all: set<SignedOp>, applied: set<OpId>)
    requires shared <= all && LeastClosed(lib, shared, known) && LeastClosed(lib, all, applied)
    requires !GoesOnAlone(lib, all - shared, known)
    ensures applied == known
  {
    PartIsBelow(lib, shared, known, all, applied);
    forall o | o in all && Ready(lib, known, o) ensures lib.id(o) in known {
      assert o !in all - shared;
    }
    assert ClosedUnder(lib, all, known);
  }

  /** Equal applied sets hold only shared operations, so they are the fixpoint over those. */
  lemma EqualIsShared<C>(lib: Library<C>, x: Log<C>, y: Log<C>, allX: set<SignedOp>, allY: set<SignedOp>, known: set<OpId>)
    requires Injective(lib) && Reached(lib, x, allX) && Reached(lib, y, allY)
    requires LeastClosed(lib, allX * allY, known) && Ids(lib, x.ops) == Ids(lib, y.ops)
    ensures Ids(lib, x.ops) == known
    ensures forall p :: p in x.ops ==> p in allX * allY
  {
    forall p | p in x.ops ensures p in allX * allY {
      assert lib.id(p) in Ids(lib, y.ops);
      AppliedOpIsIn(lib, y, p);
      assert p in Everything(x) && p in Everything(y);
    }
    GoodLogIsWithin(lib, x.ops, allX * allY, known);
    PartIsBelow(lib, allX * allY, known, allX, Ids(lib, x.ops));
  }

  lemma EqualGoesNowhere<C>(lib: Library<C>, x: Log<C>, y: Log<C>, allX: set<SignedOp>, allY: set<SignedOp>, known: set<OpId>)
    requires Injective(lib) && Reached(lib, x, allX) && Reached(lib, y, allY)
    requires LeastClosed(lib, allX * allY, known) && Ids(lib, x.ops) == Ids(lib, y.ops)
    ensures !GoesOnAlone(lib, allX - allX * allY, known)
  {
    EqualIsShared(lib, x, y, allX, allY, known);
    forall p | p in allX - allX * allY ensures !Ready(lib, known, p) {
      if Ready(lib, known, p) {
        AppliedOpIsIn(lib, x, p);
      }
    }
  }

  /** Two logs that reached their fixpoints agree exactly when nothing known to one side only is
      ready from what they share; they then hold the fixpoint over what they share. */
  lemma ReachedAgreeIff<C>(lib: Library<C>, x: Log<C>, y: Log<C>, allX: set<SignedOp>, allY: set<SignedOp>, known: set<OpId>)
    requires Injective(lib) && Reached(lib, x, allX) && Reached(lib, y, allY)
    requires LeastClosed(lib, allX * allY, known)
    ensures Ids(lib, x.ops) == Ids(lib, y.ops) <==> !GoesOnAlone(lib, allX + allY - allX * allY, known)
    ensures Ids(lib, x.ops) == Ids(lib, y.ops) ==> Ids(lib, x.ops) == known
  {
    var alone := allX + allY - allX * allY;
    assert allX * allY == allY * allX;
    if Ids(lib, x.ops) == Ids(lib, y.ops) {
      EqualIsShared(lib, x, y, allX, allY, known);
      EqualGoesNowhere(lib, x, y, allX, allY, known);
      EqualGoesNowhere(lib, y, x, allY, allX, known);
    }
    if !GoesOnAlone(lib, alone, known) {
      assert forall p :: p in allX - allX * allY ==> p in alone;
      assert forall p :: p in allY - allX * allY ==> p in alone;
      NothingAloneIsEqual(lib, allX * allY, known, allX, Ids(lib, x.ops));
      NothingAloneIsEqual(lib, allX * allY, known, allY, Ids(lib, y.ops));
    }
  }

  lemma SharedIsMeet<C>(a: Log<C>, b: Log<C>)
    ensures (Everything(a) + AsSet(b.ops)) * (Everything(b) + AsSet(a.ops)) == Shared(a, b)
    ensures (Everything(a) + AsSet(b.ops)) + (Everything(b) + AsSet(a.ops)) == Everything(a) + Everything(b)
  {
  }

  ghost predicate Healthy<C>(lib: Library<C>, a: Log<C>) {
    Sound(lib, a) && Settled(lib, a)
  }

  ghost predicate Agree<C>(lib: Library<C>, a: Log<C>, b: Log<C>) {
    Ids(lib, a.ops) == Ids(lib, b.ops)
  }

  /** Both peers send the operations they have applied, and apply what they receive. */
  ghost function Exchange<C>(lib: Library<C>, a: Log<C>, b: Log<C>): (Log<C>, Log<C>) {
    (ApplyAll(lib, a, Snapshot(b.ops)).0, ApplyAll(lib, b, Snapshot(a.ops)).0)
  }

  /** One exchange makes two peers agree if and only if no operation known to one side only becomes
      ready from what both know. What they then hold is the least fixpoint over what both know. */
  lemma ExchangeAgreesIff<C(!new)>(lib: Library<C>, a: Log<C>, b: Log<C>)
    requires Succeeds(lib) && Injective(lib) && ConcurrentCommute(lib) && Healthy(lib, a) && Healthy(lib, b)
    ensures var (a', b') := Exchange(lib, a, b);
      var known := Closure(lib, Shared(a, b), {});
      && (Agree(lib, a', b') <==> !GoesOnAlone(lib, OneSided(a, b), known))
      && (Agree(lib, a', b') ==> Ids(lib, a'.ops) == known && a'.crdt == b'.crdt)
  {
    var (a', b') := Exchange(lib, a, b);
    SnapshotReaches(lib, a, b.ops);
    SnapshotReaches(lib, b, a.ops);
    SharedIsMeet(a, b);
    ClosureIsLeast(lib, Shared(a, b));
    ReachedAgreeIff(lib, a', b', Everything(a) + AsSet(b.ops), Everything(b) + AsSet(a.ops), Closure(lib, Shared(a, b), {}));
    if Agree(lib, a', b') {
      PayloadDelivers(lib, a, Snapshot(b.ops));
      PayloadDelivers(lib, b, Snapshot(a.ops));
      CausalOrdersFoldEqually(lib, a'.ops, b'.ops);
    }
  }

  // ---- Repeating the exchange ----

  ghost function Rounds<C>(lib: Library<C>, a: Log<C>, b: Log<C>, n: nat): (Log<C>, Log<C>)
    decreases n
  {
    if n == 0 then (a, b)
    else
      var last := Rounds(lib, a, b, n - 1);
      Exchange(lib, last.0, last.1)
  }

  lemma ExchangeKeepsHealth<C(!new)>(lib: Library<C>, a: Log<C>, b: Log<C>)
    requires Succeeds(lib) && Injective(lib) && Healthy(lib, a) && Healthy(lib, b)
    ensures var (a', b') := Exchange(lib, a, b);
      && Healthy(lib, a') && Healthy(lib, b')
      && a.ops <= a'.ops && b.ops <= b'.ops
      && Everything(a') == Everything(a) + AsSet(b.ops) && Everything(b') == Everything(b) + AsSet(a.ops)
  {
    PayloadDelivers(lib, a, Snapshot(b.ops));
    PayloadDelivers(lib, b, Snapshot(a.ops));
    SnapshotIsApplied(lib, a, b.ops);
    SnapshotIsApplied(lib, b, a.ops);
  }

  /** Peers that agree keep agreeing, on the same operations. */
  lemma AgreementIsStable<C(!new)>(lib: Library<C>, a: Log<C>, b: Log<C>)
    requires Succeeds(lib) && Injective(lib) && Healthy(lib, a) && Healthy(lib, b) && Agree(lib, a, b)
    ensures var (a', b') := Exchange(lib, a, b); Ids(lib, a'.ops) == Ids(lib, a.ops) == Ids(lib, b'.ops)
  {
    ReceiverEndsWithUnionIff(lib, a, b.ops);
    ReceiverEndsWithUnionIff(lib, b, a.ops);
  }

  /** The operation on which the peers part is one that both know after the exchange. */
  lemma AloneBecomesShared<C(!new)>(lib: Library<C>, a: Log<C>, b: Log<C>, p: SignedOp)
    requires Succeeds(lib) && Injective(lib) && Healthy(lib, a) && Healthy(lib, b)
    requires p in OneSided(a, b) && Ready(lib, Closure(lib, Shared(a, b), {}), p)
    ensures var (a', b') := Exchange(lib, a, b); p in Shared(a', b')
  {
    var (a', b') := Exchange(lib, a, b);
    var known := Closure(lib, Shared(a, b), {});
    SnapshotReaches(lib, a, b.ops);
    SnapshotReaches(lib, b, a.ops);
    SharedIsMeet(a, b);
    ClosureIsLeast(lib, Shared(a, b));
    if p in Everything(a) {
      PartIsBelow(lib, Shared(a, b), known, Everything(a) + AsSet(b.ops), Ids(lib, a'.ops));
      AppliedOpIsIn(lib, a', p);
    } else {
      PartIsBelow(lib, Shared(a, b), known, Everything(b) + AsSet(a.ops), Ids(lib, b'.ops));
      AppliedOpIsIn(lib, b', p);
    }
  }

  lemma SharedGrows<C(!new)>(lib: Library<C>, a: Log<C>, b: Log<C>)
    requires Succeeds(lib) && Injective(lib) && Healthy(lib, a) && Healthy(lib, b)
    ensures var (a', b') := Exchange(lib, a, b);
      && Everything(a') + Everything(b') == Everything(a) + Everything(b)
      && OneSided(a', b') <= OneSided(a, b)
  {
    ExchangeKeepsHealth(lib, a, b);
    SharedIsMeet(a, b);
  }

  lemma ProperSubsetIsSmaller<T>(s: set<T>, t: set<T>, x: T)
    requires s <= t && x in t && x !in s
    ensures |s| < |t|
  {
    assert s <= t - {x};
    SubsetIsNotLarger(s, t - {x});
  }

  lemma {:induction false} SubsetIsNotLarger<T>(s: set<T>, t: set<T>)
    requires s <= t
    ensures |s| <= |t|
  {
    if s != {} {
      var x :| x in s;
      SubsetIsNotLarger(s - {x}, t - {x});
    }
  }

  /** An exchange that leaves the peers apart leaves less that only one of them knows. */
  lemma DisagreementShrinks<C(!new)>(lib: Library<C>, a: Log<C>, b: Log<C>)
    requires Succeeds(lib) && Injective(lib) && ConcurrentCommute(lib) && Healthy(lib, a) && Healthy(lib, b)
    ensures var (a', b') := Exchange(lib, a, b); Agree(lib, a', b') || |OneSided(a', b')| < |OneSided(a, b)|
  {
    var (a', b') := Exchange(lib, a, b);
    ExchangeAgreesIff(lib, a, b);
    if !Agree(lib, a', b') {
      var p :| p in OneSided(a, b) && Ready(lib, Closure(lib, Shared(a, b), {}), p);
      AloneBecomesShared(lib, a, b, p);
      SharedGrows(lib, a, b);
      ProperSubsetIsSmaller(OneSided(a', b'), OneSided(a, b), p);
    }
  }

  /** How far `n` rounds have brought two peers, from `a` and `b` to the pair `now`. */
  ghost predicate Progress<C>(lib: Library<C>, a: Log<C>, b: Log<C>, now: (Log<C>, Log<C>), n: nat) {
    && Healthy(lib, now.0) && Healthy(lib, now.1)
    && Everything(now.0) + Everything(now.1) == Everything(a) + Everything(b)
    && (Agree(lib, now.0, now.1) || |OneSided(now.0, now.1)| + n <= |OneSided(a, b)|)
  }

  lemma RoundProgresses<C(!new)>(lib: Library<C>, a: Log<C>, b: Log<C>, now: (Log<C>, Log<C>), n: nat)
    requires Succeeds(lib) && Injective(lib) && ConcurrentCommute(lib) && Progress(lib, a, b, now, n)
    ensures Progress(lib, a, b, Exchange(lib, now.0, now.1), n + 1)
  {
    ExchangeKeepsHealth(lib, now.0, now.1);
    SharedGrows(lib, now.0, now.1);
    if Agree(lib, now.0, now.1) {
      AgreementIsStable(lib, now.0, now.1);
    } else {
      DisagreementShrinks(lib, now.0, now.1);
    }
  }

  lemma {:induction false} RoundsProgress<C(!new)>(lib: Library<C>, a: Log<C>, b: Log<C>, n: nat)
    requires Succeeds(lib) && Injective(lib) && ConcurrentCommute(lib) && Healthy(lib, a) && Healthy(lib, b)
    ensures Progress(lib, a, b, Rounds(lib, a, b, n), n)
    decreases n
  {
    if n > 0 {
      var last := Rounds(lib, a, b, n - 1);
      RoundsProgress(lib, a, b, n - 1);
      RoundProgresses(lib, a, b, last, n - 1);
      assert Rounds(lib, a, b, n) == Exchange(lib, last.0, last.1);
    }
  }

  /** Agreeing peers hold the fixpoint over everything either of them knows. */
  lemma AgreedIsLeast<C(!new)>(lib: Library<C>, x: Log<C>, y: Log<C>)
    requires Healthy(lib, x) && Healthy(lib, y) && Agree(lib, x, y)
    ensures LeastClosed(lib, Everything(x) + Everything(y), Ids(lib, x.ops))
  {
    SettledIsLeast(lib, x);
    SettledIsLeast(lib, y);
    var all := Everything(x) + Everything(y);
    forall other: set<OpId> | ClosedUnder(lib, all, other) ensures Ids(lib, x.ops) <= other {
      assert ClosedUnder(lib, Everything(x), other);
    }
  }

  /** Repeating the exchange converges. More rounds than there were operations known to one side
      only bring both peers to the same CRDT state and to exactly the operations a peer would have
      applied that had been delivered everything either of them was. */
  lemma RepeatedExchangeConverges<C(!new)>(lib: Library<C>, a: Log<C>, b: Log<C>, n: nat)
    requires Succeeds(lib) && Injective(lib) && ConcurrentCommute(lib) && Healthy(lib, a) && Healthy(lib, b)
    requires |OneSided(a, b)| < n
    ensures var (x, y) := Rounds(lib, a, b, n);
      && Ids(lib, x.ops) == Ids(lib, y.ops) && x.crdt == y.crdt
      && LeastClosed(lib, Everything(a) + Everything(b), Ids(lib, x.ops))
  {
    var (x, y) := Rounds(lib, a, b, n);
    RoundsProgress(lib, a, b, n);
    AgreedIsLeast(lib, x, y);
    CausalOrdersFoldEqually(lib, x.ops, y.ops);
  }

  // ---- One exchange may not be enough ----

  lemma UnblockedIsApplied<C(!new)>(lib: Library<C>, a: Log<C>, ops: seq<SignedOp>, p: SignedOp)
    requires Succeeds(lib) && Injective(lib) && Sound(lib, a) && Settled(lib, a) && GoodLog(lib, ops)
    requires p in a.pending && Ready(lib, Ids(lib, a.ops) + Ids(lib, ops), p)
    ensures lib.id(p) in Ids(lib, ApplyAll(lib, a, Snapshot(ops)).0.ops)
  {
    var last := ApplyAll(lib, a, Snapshot(ops)).0;
    SnapshotIsApplied(lib, a, ops);
    PayloadDelivers(lib, a, Snapshot(ops));
    assert p in Everything(a) && p in Everything(last);
    SettledIsLeast(lib, last);
  }

  lemma UnknownIsNotApplied<C(!new)>(lib: Library<C>, b: Log<C>, ops: seq<SignedOp>, p: SignedOp)
    requires Succeeds(lib) && Injective(lib) && Sound(lib, b) && Settled(lib, b) && GoodLog(lib, ops)
    requires p !in Everything(b) && p !in ops
    ensures lib.id(p) !in Ids(lib, ApplyAll(lib, b, Snapshot(ops)).0.ops)
  {
    var last := ApplyAll(lib, b, Snapshot(ops)).0;
    SnapshotIsApplied(lib, b, ops);
    assert p !in Everything(last);
    EverythingIsKnown(lib, last, p);
    IdsOfAppend(lib, last.ops, last.pending);
  }

  /** One exchange need not make the peers equal: an operation pending on one side only, unblocked
      by the union, ends up applied on that side only. */
  lemma ExchangeMayStillDiffer<C(!new)>(lib: Library<C>, a: Log<C>, b: Log<C>, p: SignedOp)
    requires Succeeds(lib) && Injective(lib)
    requires Sound(lib, a) && Settled(lib, a) && Sound(lib, b) && Settled(lib, b)
    requires p in a.pending && Ready(lib, Ids(lib, a.ops) + Ids(lib, b.ops), p)
    requires p !in Everything(b)
    ensures lib.id(p) in Ids(lib, ApplyAll(lib, a, Snapshot(b.ops)).0.ops)
    ensures lib.id(p) !in Ids(lib, ApplyAll(lib, b, Snapshot(a.ops)).0.ops)
  {
    UnblockedIsApplied(lib, a, b.ops, p);
    PendingIsNotApplied(lib, a, p);
    UnknownIsNotApplied(lib, b, a.ops, p);
  }

  lemma PendingIsNotApplied<C>(lib: Library<C>, log: Log<C>, p: SignedOp)
    requires Sound(lib, log) && p in log.pending
    ensures lib.id(p) !in Ids(lib, log.ops) && p !in log.ops
  {
    var i :| 0 <= i < |log.pending| && log.pending[i] == p;
  }

  function Signed<C>(lib: Library<C>, me: MemberId, deps: seq<OpId>, group: MemberId, action: Action): SignedOp {
    SignedOp(me, deps, group, action, lib.sign(me, deps, group, action))
  }

  lemma FirstIsApplied<C(!new)>(lib: Library<C>, q: SignedOp)
    requires Succeeds(lib) && lib.verifies(q) && q.deps == []
    ensures Apply(lib, EmptyLog(lib), q).0.ops == [q] && Apply(lib, EmptyLog(lib), q).0.pending == []
  {
    var log := EmptyLog(lib);
    ProcessIsSound(lib, log, q);
    var next := Process(lib, log, q).0;
    assert FirstReady(lib, Ids(lib, next.ops), next.pending) == 0;
  }

  lemma SecondIsHeld<C>(lib: Library<C>, p: SignedOp)
    requires lib.verifies(p) && p.deps != []
    ensures Apply(lib, EmptyLog(lib), p).0 == Log(lib.empty, [], [p])
  {
    assert p.deps[0] !in Ids(lib, []);
    assert !Ready(lib, Ids(lib, []), p);
  }

  lemma RunOfOne<C(!new)>(lib: Library<C>, op: SignedOp)
    requires Succeeds(lib)
    ensures MayRun(lib, EmptyLog(lib), [Received(op)])
    ensures Run(lib, EmptyLog(lib), [Received(op)]) == Apply(lib, EmptyLog(lib), op).0
    ensures Healthy(lib, Apply(lib, EmptyLog(lib), op).0)
  {
    var es := [Received(op)];
    assert es[1..] == [];
    assert MayRun(lib, After(lib, EmptyLog(lib), es[0]), es[1..]);
    assert Run(lib, After(lib, EmptyLog(lib), es[0]), es[1..]) == After(lib, EmptyLog(lib), es[0]);
    ApplyDelivers(lib, EmptyLog(lib), op);
  }

  /** Two peers start empty. One is sent an operation, the other is sent an operation that builds
      on it. After the exchange the second has applied both and the first only its own. */
  lemma OneExchangeIsNotEnough<C(!new)>(lib: Library<C>, me: MemberId, group: MemberId, action: Action)
    requires Succeeds(lib) && Injective(lib) && SignatureLaw(lib)
    ensures var q := Signed(lib, me, [], group, action);
      var p := Signed(lib, me, [lib.id(q)], group, action);
      && MayRun(lib, EmptyLog(lib), [Received(p)]) && MayRun(lib, EmptyLog(lib), [Received(q)])
      && var (a', b') := Exchange(lib, Run(lib, EmptyLog(lib), [Received(p)]), Run(lib, EmptyLog(lib), [Received(q)]));
         lib.id(p) in Ids(lib, a'.ops) && lib.id(p) !in Ids(lib, b'.ops)
  {
    var q := Signed(lib, me, [], group, action);
    var p := Signed(lib, me, [lib.id(q)], group, action);
    RunOfOne(lib, p);
    RunOfOne(lib, q);
    FirstIsApplied(lib, q);
    SecondIsHeld(lib, p);
    assert lib.id(q) in Ids(lib, [q]);
    ExchangeMayStillDiffer(lib, Apply(lib, EmptyLog(lib), p).0, Apply(lib, EmptyLog(lib), q).0, p);
  }
}
