/** Peers that applied the same operations hold the same membership, whatever the order. */
module AuthOrder {
  import opened Results
  import opened AuthLog
  import opened AuthCausal

  /** Two different operations that are both ready on a log are concurrent; the CRDT must give
      them the same effect in either order. */
  ghost predicate ConcurrentCommute<C(!new)>(lib: Library<C>) {
    forall ops: seq<SignedOp>, a: SignedOp, b: SignedOp
      {:trigger GoodLog(lib, ops + [a] + [b])} ::
      GoodLog(lib, ops + [a] + [b]) && GoodLog(lib, ops + [b] + [a]) ==>
        Replay(lib, ops + [a] + [b]) == Replay(lib, ops + [b] + [a])
  }

  lemma UnfoldLast<C>(lib: Library<C>, before: seq<SignedOp>, last: SignedOp)
    ensures GoodLog(lib, before + [last]) <==>
      GoodLog(lib, before) && Ready(lib, Ids(lib, before), last)
      && lib.id(last) !in Ids(lib, before) && lib.verifies(last)
    ensures Replay(lib, before + [last]) ==
            match Replay(lib, before) case None => None case Some(c) => lib.process(c, last)
    ensures Ids(lib, before + [last]) == Ids(lib, before) + {lib.id(last)}
  {
    assert (before + [last])[..|before|] == before;
    IdsOfAppend(lib, before, [last]);
  }

  lemma SameNext<C>(lib: Library<C>, s: seq<SignedOp>, t: seq<SignedOp>, last: SignedOp)
    requires GoodLog(lib, s + [last]) && GoodLog(lib, t)
    requires Ids(lib, s) == Ids(lib, t) && Replay(lib, s) == Replay(lib, t)
    ensures GoodLog(lib, t + [last]) && Replay(lib, s + [last]) == Replay(lib, t + [last])
    ensures Ids(lib, s + [last]) == Ids(lib, t + [last])
  {
    UnfoldLast(lib, s, last);
    UnfoldLast(lib, t, last);
  }

  /** What follows a log depends only on the ids and the CRDT state before it. */
  lemma {:induction false} SameFollowUp<C>(lib: Library<C>, s: seq<SignedOp>, t: seq<SignedOp>, more: seq<SignedOp>)
    requires GoodLog(lib, s + more) && GoodLog(lib, t)
    requires Ids(lib, s) == Ids(lib, t) && Replay(lib, s) == Replay(lib, t)
    ensures GoodLog(lib, t + more) && Replay(lib, s + more) == Replay(lib, t + more)
    ensures Ids(lib, s + more) == Ids(lib, t + more)
    decreases |more|
  {
    if more == [] {
      assert s + more == s && t + more == t;
    } else {
      var front, last := more[..|more| - 1], more[|more| - 1];
      assert s + more == (s + front) + [last] && t + more == (t + front) + [last];
      PrefixIsGood(lib, s + front, [last]);
      SameFollowUp(lib, s, t, front);
      SameNext(lib, s + front, t + front, last);
    }
  }

  lemma SwapLastTwo<C(!new)>(lib: Library<C>, u: seq<SignedOp>, x: SignedOp, y: SignedOp)
    requires ConcurrentCommute(lib) && GoodLog(lib, u + [x] + [y]) && lib.id(x) !in y.deps
    ensures GoodLog(lib, u + [y] + [x])
    ensures Replay(lib, u + [x] + [y]) == Replay(lib, u + [y] + [x])
    ensures Ids(lib, u + [x] + [y]) == Ids(lib, u + [y] + [x])
  {
    UnfoldLast(lib, u + [x], y);
    UnfoldLast(lib, u, x);
    UnfoldLast(lib, u, y);
    UnfoldLast(lib, u + [y], x);
    assert GoodLog(lib, u + [y] + [x]);
  }

  /** Two neighbours of which the second does not depend on the first may change places. */
  lemma SwapNeighbours<C(!new)>(lib: Library<C>, u: seq<SignedOp>, x: SignedOp, y: SignedOp, rest: seq<SignedOp>)
    requires ConcurrentCommute(lib)
    requires GoodLog(lib, (u + [x] + [y]) + rest) && lib.id(x) !in y.deps
    ensures GoodLog(lib, (u + [y] + [x]) + rest)
    ensures Replay(lib, (u + [y] + [x]) + rest) == Replay(lib, (u + [x] + [y]) + rest)
    ensures Ids(lib, (u + [y] + [x]) + rest) == Ids(lib, (u + [x] + [y]) + rest)
  {
    PrefixIsGood(lib, u + [x] + [y], rest);
    SwapLastTwo(lib, u, x, y);
    SameFollowUp(lib, u + [x] + [y], u + [y] + [x], rest);
  }

  lemma {:induction false} PrefixIsGood<C>(lib: Library<C>, s: seq<SignedOp>, more: seq<SignedOp>)
    requires GoodLog(lib, s + more)
    ensures GoodLog(lib, s)
    decreases |more|
  {
    if more == [] {
      assert s + more == s;
    } else {
      var front, last := more[..|more| - 1], more[|more| - 1];
      assert s + more == (s + front) + [last];
      UnfoldLast(lib, s + front, last);
      PrefixIsGood(lib, s, front);
    }
  }

  lemma Regroup(u: seq<SignedOp>, x: SignedOp, v: seq<SignedOp>)
    requires v != []
    ensures u + [x] + v == (u + [x] + [v[0]]) + v[1..]
    ensures (u + [v[0]] + [x]) + v[1..] == (u + [v[0]]) + [x] + v[1..]
    ensures (u + [v[0]]) + v[1..] + [x] == u + v + [x]
  {
  }

  /** An operation on which nothing later depends may move to the end. */
  lemma {:induction false} MoveToEnd<C(!new)>(lib: Library<C>, u: seq<SignedOp>, x: SignedOp, v: seq<SignedOp>)
    requires ConcurrentCommute(lib) && GoodLog(lib, u + [x] + v)
    requires forall y :: y in v ==> lib.id(x) !in y.deps
    ensures GoodLog(lib, u + v + [x])
    ensures Replay(lib, u + v + [x]) == Replay(lib, u + [x] + v)
    ensures Ids(lib, u + v + [x]) == Ids(lib, u + [x] + v)
    decreases |v|
  {
    if v == [] {
      assert u + v + [x] == u + [x] + v;
    } else {
      var y, w := v[0], v[1..];
      Regroup(u, x, v);
      assert lib.id(x) !in y.deps;
      SwapNeighbours(lib, u, x, y, w);
      MoveToEnd(lib, u + [y], x, w);
    }
  }

  lemma {:induction false} DepsAreApplied<C>(lib: Library<C>, ops: seq<SignedOp>, op: SignedOp)
    requires GoodLog(lib, ops) && op in ops
    ensures Ready(lib, Ids(lib, ops), op)
  {
    var before, last := ops[..|ops| - 1], ops[|ops| - 1];
    assert ops == before + [last];
    IdsOfAppend(lib, before, [last]);
    if op != last {
      DepsAreApplied(lib, before, op);
    }
  }

  /** Where the last operation of `s` sits in `t`, and that nothing after it depends on it. */
  lemma LastIsMovable<C>(lib: Library<C>, s: seq<SignedOp>, t: seq<SignedOp>) returns (j: nat)
    requires Injective(lib) && GoodLog(lib, s) && GoodLog(lib, t) && s != []
    requires Ids(lib, s) == Ids(lib, t)
    ensures j < |t| && t[j] == s[|s| - 1]
    ensures forall y :: y in t ==> lib.id(t[j]) !in y.deps
  {
    var before, x := s[..|s| - 1], s[|s| - 1];
    assert s == before + [x];
    UnfoldLast(lib, before, x);
    assert lib.id(x) in Ids(lib, s);
    var o :| o in t && lib.id(o) == lib.id(x);
    j :| 0 <= j < |t| && t[j] == o;
    forall y | y in t ensures lib.id(x) !in y.deps {
      assert lib.id(y) in Ids(lib, t);
      var z :| z in s && lib.id(z) == lib.id(y);
      assert z == y;
      if y != x {
        DepsAreApplied(lib, before, y);
      }
    }
  }

  /** Any two causal orders of the same operations lead to the same CRDT state. */
  lemma {:induction false} CausalOrdersFoldEqually<C(!new)>(lib: Library<C>, s: seq<SignedOp>, t: seq<SignedOp>)
    requires ConcurrentCommute(lib) && Injective(lib)
    requires GoodLog(lib, s) && GoodLog(lib, t) && Ids(lib, s) == Ids(lib, t)
    ensures Replay(lib, s) == Replay(lib, t)
    decreases |s|
  {
    assert t != [] ==> lib.id(t[0]) in Ids(lib, t);
    if s != [] {
      var before, x := s[..|s| - 1], s[|s| - 1];
      var j := LastIsMovable(lib, s, t);
      var u, v := t[..j], t[j + 1..];
      assert t == u + [x] + v;
      assert s == before + [x];
      MoveToEnd(lib, u, x, v);
      UnfoldLast(lib, before, x);
      UnfoldLast(lib, u + v, x);
      assert Ids(lib, before) == Ids(lib, s) - {lib.id(x)} == Ids(lib, u + v);
      CausalOrdersFoldEqually(lib, before, u + v);
    }
  }

  /** Two peers that were delivered the same operations, in any two orders with any repeats and
      interleaved with their own, report the same members. */
  lemma SameDeliveriesSameMembers<C(!new)>(lib: Library<C>, es: seq<Event>, fs: seq<Event>, group: MemberId)
    requires Succeeds(lib) && ConcurrentCommute(lib) && Injective(lib)
    requires MayRun(lib, EmptyLog(lib), es) && MayRun(lib, EmptyLog(lib), fs)
    requires Delivered(lib, es) == Delivered(lib, fs)
    ensures var a, b := Run(lib, EmptyLog(lib), es), Run(lib, EmptyLog(lib), fs);
      && Ids(lib, a.ops) == Ids(lib, b.ops)
      && a.crdt == b.crdt
      && lib.members(a.crdt, group) == lib.members(b.crdt, group)
  {
    AppliedIsLeastFixpoint(lib, es);
    AppliedIsLeastFixpoint(lib, fs);
    var a, b := Run(lib, EmptyLog(lib), es), Run(lib, EmptyLog(lib), fs);
    assert Ids(lib, a.ops) <= Ids(lib, b.ops) && Ids(lib, b.ops) <= Ids(lib, a.ops);
    CausalOrdersFoldEqually(lib, a.ops, b.ops);
  }

  // ---- Operations authored here ----

  ghost predicate SignatureLaw<C>(lib: Library<C>) {
    forall me: MemberId, deps: seq<OpId>, group: MemberId, action: Action ::
      lib.verifies(SignedOp(me, deps, group, action, lib.sign(me, deps, group, action)))
  }

  /** The ids that no applied operation depends on. */
  ghost predicate AreHeads<C>(lib: Library<C>, ops: seq<SignedOp>, heads: seq<OpId>) {
    forall d :: d in heads <==> d in Ids(lib, ops) && forall o :: o in ops ==> d !in o.deps
  }

  /** The CRDT reports the heads of what it has processed. */
  ghost predicate HeadsLaw<C>(lib: Library<C>) {
    forall ops: seq<SignedOp> :: GoodLog(lib, ops) && Replay(lib, ops).Some? ==>
      AreHeads(lib, ops, lib.heads(Replay(lib, ops).value))
  }

  /** What is authored on a sound log is signed and builds on applied operations only. */
  lemma AuthoredMayHappen<C>(lib: Library<C>, log: Log<C>, me: MemberId, group: MemberId, action: Action)
    requires SignatureLaw(lib) && HeadsLaw(lib) && Sound(lib, log)
    requires NewTo(lib, log, lib.id(AuthoredOp(lib, log, me, group, action)))
    ensures MayHappen(lib, log, Authored(AuthoredOp(lib, log, me, group, action)))
  {
    assert AreHeads(lib, log.ops, lib.heads(log.crdt));
  }

  lemma AppliedIn<C>(lib: Library<C>, ops: seq<SignedOp>, o: SignedOp)
    requires Injective(lib) && lib.id(o) in Ids(lib, ops)
    ensures o in ops
  {
    var p :| p in ops && lib.id(p) == lib.id(o);
    assert p == o;
  }

  /** Only later operations depend on an applied one. */
  lemma {:induction false} DependantIsLater<C>(lib: Library<C>, ops: seq<SignedOp>, i: nat, o: SignedOp) returns (k: nat)
    requires Injective(lib) && GoodLog(lib, ops) && i < |ops| && o in ops && lib.id(ops[i]) in o.deps
    ensures i < k < |ops| && ops[k] == o
  {
    var before, last := ops[..|ops| - 1], ops[|ops| - 1];
    assert ops == before + [last];
    UnfoldLast(lib, before, last);
    if o in before {
      DepsAreApplied(lib, before, o);
    }
    assert lib.id(ops[i]) in Ids(lib, before);
    if o == last {
      k := |before|;
    } else {
      k := DependantIsLater(lib, before, i, o);
    }
  }

  /** A causal log that has all heads of `ops` has all of `ops`. */
  lemma {:induction false} HeadsCover<C>(lib: Library<C>, ops: seq<SignedOp>, heads: seq<OpId>, u: seq<SignedOp>, i: nat)
    requires Injective(lib) && GoodLog(lib, ops) && GoodLog(lib, u) && AreHeads(lib, ops, heads)
    requires (forall d :: d in heads ==> d in Ids(lib, u)) && i < |ops|
    ensures lib.id(ops[i]) in Ids(lib, u)
    decreases |ops| - i
  {
    var d := lib.id(ops[i]);
    assert d in Ids(lib, ops);
    if d !in heads {
      var o :| o in ops && d in o.deps;
      var k := DependantIsLater(lib, ops, i, o);
      HeadsCover(lib, ops, heads, u, k);
      AppliedIn(lib, u, o);
      DepsAreApplied(lib, u, o);
    }
  }

  /** An authored operation comes causally after everything its author had applied: in the log of any
      peer, all of that stands before it. */
  lemma AuthoredComesAfter<C(!new)>(lib: Library<C>, log: Log<C>, me: MemberId, group: MemberId, action: Action,
                                    t: seq<SignedOp>, j: nat)
    requires Injective(lib) && HeadsLaw(lib) && Sound(lib, log)
    requires GoodLog(lib, t) && j < |t| && t[j] == AuthoredOp(lib, log, me, group, action)
    ensures Ids(lib, log.ops) <= Ids(lib, t[..j])
  {
    var heads := lib.heads(log.crdt);
    assert AreHeads(lib, log.ops, heads);
    assert t == t[..j + 1] + t[j + 1..] && t[..j + 1] == t[..j] + [t[j]];
    PrefixIsGood(lib, t[..j + 1], t[j + 1..]);
    UnfoldLast(lib, t[..j], t[j]);
    forall d | d in Ids(lib, log.ops) ensures d in Ids(lib, t[..j]) {
      var o :| o in log.ops && lib.id(o) == d;
      var i :| 0 <= i < |log.ops| && log.ops[i] == o;
      HeadsCover(lib, log.ops, heads, t[..j], i);
    }
  }
}
