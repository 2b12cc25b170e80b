/** What a rebroadcast round achieves in a running share (src/daemon.rs): the buffers of every run are
    ready for it, and a member that keeps its membership ends with the rotator's ring. */
module RotationLiveness {
  import opened Results
  import opened Orders
  import AuthLog
  import opened KeyRing
  import opened Rotation
  import opened RotationBuffer
  import opened RotationDelivery
  import opened RotationRun

  /** A published rotation of epoch `e` addresses `p`. */
  ghost predicate Addressed(issued: map<nat, Issue>, e: nat, p: MemberId) {
    e in issued && p in issued[e].recipients
  }

  // ---- Buffers over whole runs ----

  /** A buffer is bounded, leaves a gap, and holds published rotations for its owner only. */
  ghost predicate BufferFits(issued: map<nat, Issue>, p: MemberId, ring: Ring, buffer: seq<SignedRotation>) {
    && BufferOk(buffer) && Above(Epochs(buffer), |ring| + 1)
    && forall r :: r in buffer ==> Sent(issued, r) && Addressed(issued, r.epoch, p)
  }

  ghost predicate BuffersFit(sh: Share) {
    Started(sh) && forall p :: p in sh.rings ==> BufferFits(sh.issued, p, sh.rings[p], sh.buffers[p])
  }

  lemma BufferedIsGap(verify: Verify, ring: Ring, rot: SignedRotation)
    requires ring != [] && TryInstall(verify, ring, rot).1 == Ok(Buffered)
    ensures rot.epoch > |ring| + 1
  {
  }

  lemma PutBackLeavesGap(buffer: seq<SignedRotation>, n: nat)
    requires BufferOk(buffer) && buffer != [] && SortBy(EpochLess, buffer) != []
    requires SortBy(EpochLess, buffer)[0].epoch > n
    ensures var s := SortBy(EpochLess, buffer); Above(Epochs(Push(s[1..], s[0])), n)
  {
    PutBack(buffer);
    LeastFirst(buffer);
  }

  /** Draining stops only at a gap, whatever opens for the receiver. */
  lemma {:induction false} DrainLeavesGap(verify: Verify, ring: Ring, buffer: seq<SignedRotation>)
    requires ring != [] && BufferOk(buffer)
    ensures var (last, rest) := Drain(verify, ring, buffer); Above(Epochs(rest), |last| + 1)
    decreases |buffer|
  {
    if buffer != [] {
      SortedBuffer(buffer);
      var s := SortBy(EpochLess, buffer);
      if TryInstall(verify, ring, s[0]).1 == Ok(Buffered) {
        BufferedIsGap(verify, ring, s[0]);
        PutBackLeavesGap(buffer, |ring| + 1);
      } else {
        DrainLeavesGap(verify, TryInstall(verify, ring, s[0]).0, s[1..]);
      }
    }
  }

  lemma ReceiveLeavesGap(verify: Verify, ring: Ring, buffer: seq<SignedRotation>, rot: SignedRotation)
    requires ring != [] && BufferOk(buffer) && Above(Epochs(buffer), |ring| + 1)
    ensures var (last, rest, _) := Receive(verify, ring, buffer, rot);
      BufferOk(rest) && Above(Epochs(rest), |last| + 1)
  {
    ReceiveIsBounded(verify, ring, buffer, rot);
    var (next, attempt) := TryInstall(verify, ring, rot);
    if attempt == Ok(Applied) {
      DrainLeavesGap(verify, next, buffer);
    } else if attempt == Ok(Buffered) {
      PushKeepsEntries(buffer, rot);
      forall r | r in Push(buffer, rot) ensures r.epoch > |ring| + 1 {
        assert r in buffer ==> r.epoch in Epochs(buffer);
      }
    }
  }

  lemma DeliveryFits(cr: Crypto, sh: Share, p: MemberId, rot: SignedRotation, view: seq<(MemberId, AuthRole)>)
    requires Lawful(cr.box) && Agreement(cr, sh) && BuffersFit(sh) && Allowed(cr, sh, Deliver(p, rot, view))
    ensures var (last, rest, _) := Receive(Through(cr.box, view, p), sh.rings[p], sh.buffers[p], rot);
      BufferFits(sh.issued, p, last, rest)
  {
    var verify, truth := Through(cr.box, view, p), sh.rings[sh.rotator];
    assert BufferFits(sh.issued, p, sh.rings[p], sh.buffers[p]);
    OpensOnlySent(cr, sh, rot, view, p);
    if verify(rot).OkForUs? {
      SentIsHarmless(cr, sh, rot, view, p);
    }
    forall r | r in sh.buffers[p] ensures Harmless(verify, truth, r) {
      SentIsHarmless(cr, sh, r, view, p);
    }
    ReceiveKeepsPrefix(verify, truth, sh.rings[p], sh.buffers[p], rot);
    ReceiveLeavesGap(verify, sh.rings[p], sh.buffers[p], rot);
  }

  lemma IssueFits(sh: Share, i: Issue)
    requires BuffersFit(sh) && i.rot.epoch !in sh.issued
    ensures BuffersFit(sh.(issued := sh.issued[i.rot.epoch := i]))
  {
    forall p | p in sh.rings ensures BufferFits(sh.issued[i.rot.epoch := i], p, sh.rings[p], sh.buffers[p]) {
      assert BufferFits(sh.issued, p, sh.rings[p], sh.buffers[p]);
    }
  }

  lemma EmptyFits(issued: map<nat, Issue>, p: MemberId, ring: Ring)
    ensures BufferFits(issued, p, ring, [])
  {
    assert Epochs([]) == {};
  }

  lemma NothingFits(buffer: seq<SignedRotation>, n: nat)
    requires BufferOk(buffer) && Above(Epochs(buffer), n + 1) && forall r :: r in buffer ==> r.epoch <= n
    ensures buffer == []
  {
    assert forall e :: e in Epochs(buffer) ==> e <= n;
    assert Epochs(buffer) == {};
  }

  /** The rotator buffers nothing: no published epoch leaves a gap after its own ring. */
  lemma RotatorBuffersNothing(cr: Crypto, sh: Share)
    requires Agreement(cr, sh) && BuffersFit(sh)
    ensures sh.buffers[sh.rotator] == []
  {
    IssuedWithinRing(cr, sh);
    assert BufferFits(sh.issued, sh.rotator, sh.rings[sh.rotator], sh.buffers[sh.rotator]);
    NothingFits(sh.buffers[sh.rotator], |sh.rings[sh.rotator]|);
  }

  lemma RotateFits(cr: Crypto, sh: Share, key: Key, members: set<MemberId>)
    requires Agreement(cr, sh) && BuffersFit(sh)
    ensures BuffersFit(sh.(rings := sh.rings[sh.rotator := sh.rings[sh.rotator] + [key]], members := members))
  {
    RotatorBuffersNothing(cr, sh);
    EmptyFits(sh.issued, sh.rotator, sh.rings[sh.rotator] + [key]);
  }

  lemma RevokeFits(cr: Crypto, sh: Share, step: Step)
    requires Agreement(cr, sh) && BuffersFit(sh) && Allowed(cr, sh, step) && step.Revoke?
    ensures BuffersFit(Next(cr, sh, step))
  {
    var rotated, i := RevokeShape(cr, sh, step);
    RotateFits(cr, sh, step.key, sh.members - {step.target});
    if i.Some? {
      IssuedWithinRing(cr, sh);
      IssueFits(rotated, i.value);
    }
  }

  /** Giving one peer a ring and a buffer that fit it leaves the others alone. */
  lemma OneMoreFits(sh: Share, p: MemberId, ring: Ring, buffer: seq<SignedRotation>)
    requires BuffersFit(sh) && ring != [] && BufferFits(sh.issued, p, ring, buffer)
    ensures BuffersFit(sh.(rings := sh.rings[p := ring], buffers := sh.buffers[p := buffer]))
  {
    forall q | q in sh.rings && q != p ensures BufferFits(sh.issued, q, sh.rings[q], sh.buffers[q]) {
    }
  }

  lemma DeliverFits(cr: Crypto, sh: Share, step: Step)
    requires Lawful(cr.box) && Agreement(cr, sh) && BuffersFit(sh) && Allowed(cr, sh, step) && step.Deliver?
    ensures BuffersFit(Next(cr, sh, step))
  {
    DeliveryFits(cr, sh, step.p, step.rot, step.view);
    var (ring, buffer, _) := Receive(Through(cr.box, step.view, step.p), sh.rings[step.p], sh.buffers[step.p], step.rot);
    OneMoreFits(sh, step.p, ring, buffer);
  }

  lemma JoinFits(sh: Share, p: MemberId, ring: Ring)
    requires BuffersFit(sh) && ring != []
    ensures BuffersFit(sh.(rings := sh.rings[p := ring], buffers := sh.buffers[p := []]))
  {
    EmptyFits(sh.issued, p, ring);
    OneMoreFits(sh, p, ring, []);
  }

  lemma RestartFits(sh: Share, p: MemberId)
    requires BuffersFit(sh) && p in sh.rings
    ensures BuffersFit(sh.(buffers := sh.buffers[p := []]))
  {
    JoinFits(sh, p, sh.rings[p]);
    assert sh.rings[p := sh.rings[p]] == sh.rings;
  }

  lemma StepKeepsBuffersFit(cr: Crypto, sh: Share, step: Step)
    requires Lawful(cr.box) && Agreement(cr, sh) && BuffersFit(sh) && Allowed(cr, sh, step)
    ensures BuffersFit(Next(cr, sh, step))
  {
    match step
    case RotateKey(key) => RotateFits(cr, sh, key, sh.members);
    case Revoke(_, _, _, _) => RevokeFits(cr, sh, step);
    case Deliver(_, _, _) => DeliverFits(cr, sh, step);
    case Join(p, keys) => JoinFits(sh, p, keys);
    case Restart(p) => RestartFits(sh, p);
    case _ =>
  }

  /** In every run the buffers stay bounded, gapped, and filled with rotations for their owner. */
  lemma {:induction false} RunKeepsBuffersFit(cr: Crypto, sh: Share, steps: seq<Step>)
    requires Lawful(cr.box) && Agreement(cr, sh) && BuffersFit(sh) && MayRun(cr, sh, steps)
    ensures BuffersFit(Exec(cr, sh, steps)) && Agreement(cr, Exec(cr, sh, steps))
    decreases |steps|
  {
    if steps != [] {
      StepKeepsBuffersFit(cr, sh, steps[0]);
      StepKeepsAgreement(cr, sh, steps[0]);
      RunKeepsBuffersFit(cr, Next(cr, sh, steps[0]), steps[1..]);
    }
  }

  lemma InitialFits(cr: Crypto, sh: Share)
    requires Initial(sh)
    ensures Agreement(cr, sh) && BuffersFit(sh)
  {
    InitialAgrees(cr, sh);
    EmptyFits(sh.issued, sh.rotator, sh.rings[sh.rotator]);
  }

  // ---- One round ----

  /** Whether a published rotation opens for `p`, which lists the rotator, is decided by its recipients. */
  lemma OpensIffAddressed(cr: Crypto, sh: Share, rot: SignedRotation, view: seq<(MemberId, AuthRole)>, p: MemberId)
    requires Lawful(cr.box) && IssuedHonest(cr, sh) && Sent(sh.issued, rot) && (sh.rotator, AuthLog.Owner) in view
    ensures var verify := Through(cr.box, view, p);
      if Addressed(sh.issued, rot.epoch, p) then Genuine(verify, sh.rings[sh.rotator], rot) else !verify(rot).OkForUs?
  {
    var i := sh.issued[rot.epoch];
    assert BuiltFrom(cr, sh.rotator, sh.rings[sh.rotator], rot.epoch, i);
    RotationOpensExactlyForRecipients(cr.box, i.random, sh.rotator, rot.epoch, sh.rings[sh.rotator][rot.epoch - 1], i.recipients, view, p);
  }

  function Opening(verify: Verify, queue: seq<SignedRotation>): seq<SignedRotation> {
    if queue == [] then []
    else
      Opening(verify, queue[..|queue| - 1]) + if verify(queue[|queue| - 1]).OkForUs? then [queue[|queue| - 1]] else []
  }

  lemma {:induction false} OpeningKeepsOrder(verify: Verify, queue: seq<SignedRotation>)
    requires Published(queue)
    ensures Published(Opening(verify, queue))
    ensures forall r :: r in Opening(verify, queue) <==> r in queue && verify(r).OkForUs?
  {
    if queue != [] {
      var before, last := queue[..|queue| - 1], queue[|queue| - 1];
      assert queue == before + [last];
      OpeningKeepsOrder(verify, before);
      forall r | r in before ensures EpochLess(r, last) {
        var i :| 0 <= i < |before| && before[i] == r;
        assert EpochLess(queue[i], queue[|queue| - 1]);
      }
    }
  }

  /** What does not open for the receiver makes no difference to it. */
  lemma {:induction false} OnlyOpeningMatters(verify: Verify, ring: Ring, buffer: seq<SignedRotation>, queue: seq<SignedRotation>)
    requires ring != []
    ensures DeliverAll(verify, ring, buffer, queue) == DeliverAll(verify, ring, buffer, Opening(verify, queue))
  {
    if queue != [] {
      var before, last := queue[..|queue| - 1], queue[|queue| - 1];
      OnlyOpeningMatters(verify, ring, buffer, before);
      if verify(last).OkForUs? {
        DeliverLast(verify, ring, buffer, Opening(verify, before), last);
      } else {
        assert Opening(verify, queue) == Opening(verify, before);
      }
    }
  }

  /** The rotations that the rotator rebroadcasts, in epoch order. */
  ghost predicate InOrder(issued: map<nat, Issue>, queue: seq<SignedRotation>) {
    Published(queue) && forall r :: r in queue <==> Sent(issued, r)
  }

  function Round(p: MemberId, view: seq<(MemberId, AuthRole)>, queue: seq<SignedRotation>): seq<Step> {
    if queue == [] then [] else [Deliver(p, queue[0], view)] + Round(p, view, queue[1..])
  }

  lemma {:induction false} DeliverFirst(verify: Verify, ring: Ring, buffer: seq<SignedRotation>, rots: seq<SignedRotation>)
    requires ring != [] && rots != []
    ensures var (r, b, _) := Receive(verify, ring, buffer, rots[0]);
      r != [] && DeliverAll(verify, ring, buffer, rots) == DeliverAll(verify, r, b, rots[1..])
    decreases |rots|
  {
    if |rots| > 1 {
      DeliverFirst(verify, ring, buffer, rots[..|rots| - 1]);
      assert rots[..|rots| - 1][1..] == rots[1..][..|rots| - 2];
    } else {
      assert rots[..0] == [];
    }
  }

  /** The steps of a round are allowed, and deliver the queue to `p`. */
  lemma {:induction false} RoundDelivers(cr: Crypto, sh: Share, p: MemberId, view: seq<(MemberId, AuthRole)>, queue: seq<SignedRotation>)
    requires Started(sh) && p in sh.rings && OnlyOwner(sh, view) && forall r :: r in queue ==> Sent(sh.issued, r)
    ensures MayRun(cr, sh, Round(p, view, queue))
    ensures var last := Exec(cr, sh, Round(p, view, queue));
      p in last.rings && last.rings[p] == DeliverAll(Through(cr.box, view, p), sh.rings[p], sh.buffers[p], queue).0
    decreases |queue|
  {
    if queue != [] {
      var step := Deliver(p, queue[0], view);
      var next := Next(cr, sh, step);
      RoundDelivers(cr, next, p, view, queue[1..]);
      DeliverFirst(Through(cr.box, view, p), sh.rings[p], sh.buffers[p], queue);
      assert Round(p, view, queue)[1..] == Round(p, view, queue[1..]);
    }
  }

  lemma BufferWaits(cr: Crypto, sh: Share, p: MemberId, view: seq<(MemberId, AuthRole)>)
    requires Lawful(cr.box) && Agreement(cr, sh) && BuffersFit(sh) && p in sh.rings && (sh.rotator, AuthLog.Owner) in view
    ensures Waits(Through(cr.box, view, p), sh.rings[sh.rotator], sh.rings[p], sh.buffers[p])
  {
    assert BufferFits(sh.issued, p, sh.rings[p], sh.buffers[p]);
    forall r | r in sh.buffers[p] ensures Genuine(Through(cr.box, view, p), sh.rings[sh.rotator], r) {
      OpensIffAddressed(cr, sh, r, view, p);
    }
  }

  lemma OpeningAreAddressed(cr: Crypto, sh: Share, p: MemberId, view: seq<(MemberId, AuthRole)>, queue: seq<SignedRotation>)
    requires Lawful(cr.box) && IssuedHonest(cr, sh) && (sh.rotator, AuthLog.Owner) in view && InOrder(sh.issued, queue)
    ensures var opening := Opening(Through(cr.box, view, p), queue);
      && Published(opening) && AllGenuine(Through(cr.box, view, p), sh.rings[sh.rotator], opening)
      && forall e :: e in Epochs(opening) <==> Addressed(sh.issued, e, p)
  {
    var verify := Through(cr.box, view, p);
    var opening := Opening(verify, queue);
    OpeningKeepsOrder(verify, queue);
    forall r | Sent(sh.issued, r)
      ensures Addressed(sh.issued, r.epoch, p) <==> r in opening
      ensures r in opening ==> Genuine(verify, sh.rings[sh.rotator], r)
    {
      OpensIffAddressed(cr, sh, r, view, p);
    }
    forall e | Addressed(sh.issued, e, p) ensures e in Epochs(opening) {
      assert BuiltFrom(cr, sh.rotator, sh.rings[sh.rotator], e, sh.issued[e]);
      assert Sent(sh.issued, sh.issued[e].rot);
    }
  }

  lemma DeliveringReachesIff(cr: Crypto, sh: Share, p: MemberId, view: seq<(MemberId, AuthRole)>, queue: seq<SignedRotation>, goal: nat)
    requires Lawful(cr.box) && Agreement(cr, sh) && BuffersFit(sh) && p in sh.rings
    requires (sh.rotator, AuthLog.Owner) in view && InOrder(sh.issued, queue)
    ensures goal <= |DeliverAll(Through(cr.box, view, p), sh.rings[p], sh.buffers[p], queue).0| <==>
            forall e :: |sh.rings[p]| < e <= goal ==> Addressed(sh.issued, e, p)
  {
    var verify, truth := Through(cr.box, view, p), sh.rings[sh.rotator];
    var opening := Opening(verify, queue);
    OnlyOpeningMatters(verify, sh.rings[p], sh.buffers[p], queue);
    OpeningAreAddressed(cr, sh, p, view, queue);
    BufferWaits(cr, sh, p, view);
    RebroadcastReachesIff(verify, truth, sh.rings[p], sh.buffers[p], opening, goal);
    BufferedAreAddressed(sh, p);
    assert forall e :: e in Epochs(sh.buffers[p]) + Epochs(opening) <==> Addressed(sh.issued, e, p);
  }

  lemma BufferedAreAddressed(sh: Share, p: MemberId)
    requires BuffersFit(sh) && p in sh.rings
    ensures forall e :: e in Epochs(sh.buffers[p]) ==> Addressed(sh.issued, e, p)
  {
    assert BufferFits(sh.issued, p, sh.rings[p], sh.buffers[p]);
  }

  /** One round takes the ring of a peer to epoch `goal` if and only if every epoch on the way was
      published to that peer. Epochs rotated by hand, and those published while it was no member,
      are the holes. */
  lemma RoundReachesIff(cr: Crypto, sh: Share, p: MemberId, view: seq<(MemberId, AuthRole)>, queue: seq<SignedRotation>, goal: nat)
    requires Lawful(cr.box) && Agreement(cr, sh) && BuffersFit(sh) && p in sh.rings
    requires OnlyOwner(sh, view) && (sh.rotator, AuthLog.Owner) in view && InOrder(sh.issued, queue)
    ensures MayRun(cr, sh, Round(p, view, queue))
    ensures var last := Exec(cr, sh, Round(p, view, queue));
      p in last.rings &&
      (goal <= |last.rings[p]| <==> forall e :: |sh.rings[p]| < e <= goal ==> Addressed(sh.issued, e, p))
  {
    RoundDelivers(cr, sh, p, view, queue);
    DeliveringReachesIff(cr, sh, p, view, queue, goal);
  }

  // ---- Members that stay ----

  /** Steps that neither rotate by hand, nor revoke `p`, nor fail to publish for a malformed key. */
  ghost predicate PublishesTo(cr: Crypto, p: MemberId, step: Step) {
    !step.RotateKey? && (step.Revoke? ==> step.target != p && forall m :: m in step.remaining ==> cr.box.validKey(m))
  }

  /** Every epoch since `base` was published to the member `p`. */
  ghost predicate Served(sh: Share, p: MemberId, base: nat) {
    && p in sh.members && sh.rotator in sh.rings
    && forall e :: base < e <= |sh.rings[sh.rotator]| ==> Addressed(sh.issued, e, p)
  }

  lemma RevokeServes(cr: Crypto, sh: Share, step: Step, p: MemberId, base: nat)
    requires Served(sh, p, base) && Allowed(cr, sh, step) && PublishesTo(cr, p, step) && step.Revoke?
    ensures Served(Next(cr, sh, step), p, base)
  {
    var epoch := |sh.rings[sh.rotator]| + 1;
    var next := Next(cr, sh, step);
    assert p in step.remaining && Addressed(next.issued, epoch, p);
    forall e | base < e <= epoch ensures Addressed(next.issued, e, p) {
      assert e < epoch ==> Addressed(sh.issued, e, p);
    }
  }

  lemma StepKeepsServed(cr: Crypto, sh: Share, step: Step, p: MemberId, base: nat)
    requires Lawful(cr.box) && Agreement(cr, sh) && Served(sh, p, base) && Allowed(cr, sh, step) && PublishesTo(cr, p, step)
    ensures Served(Next(cr, sh, step), p, base)
  {
    if step.Deliver? {
      DeliveryIsHarmless(cr, sh, step.p, step.rot, step.view);
    } else if step.Revoke? {
      RevokeServes(cr, sh, step, p, base);
    }
  }

  lemma {:induction false} RunKeepsServed(cr: Crypto, sh: Share, steps: seq<Step>, p: MemberId, base: nat)
    requires Lawful(cr.box) && Agreement(cr, sh) && Served(sh, p, base) && MayRun(cr, sh, steps)
    requires forall s :: s in steps ==> PublishesTo(cr, p, s)
    ensures Served(Exec(cr, sh, steps), p, base)
    decreases |steps|
  {
    if steps != [] {
      StepKeepsServed(cr, sh, steps[0], p, base);
      StepKeepsAgreement(cr, sh, steps[0]);
      RunKeepsServed(cr, Next(cr, sh, steps[0]), steps[1..], p, base);
    }
  }

  /** From any reachable state on, through any deliveries, losses, restarts and revocations of others,
      a member whose ring came to cover what had been rotated by then, and that was not revoked, ends
      with the rotator's ring after one round, as long as no key was rotated by hand in between. */
  lemma StayingMemberCatchesUp(cr: Crypto, start: Share, first: seq<Step>, later: seq<Step>, p: MemberId,
                               view: seq<(MemberId, AuthRole)>, queue: seq<SignedRotation>)
    requires Lawful(cr.box) && Initial(start) && MayRun(cr, start, first)
    requires var mid := Exec(cr, start, first);
      && p in mid.members && MayRun(cr, mid, later) && mid.rotator in mid.rings
      && var last := Exec(cr, mid, later);
         && p in last.rings && |last.rings[p]| >= |mid.rings[mid.rotator]|
         && OnlyOwner(last, view) && (last.rotator, AuthLog.Owner) in view && InOrder(last.issued, queue)
    requires forall s :: s in later ==> PublishesTo(cr, p, s)
    ensures var last := Exec(cr, Exec(cr, start, first), later);
      && MayRun(cr, last, Round(p, view, queue))
      && var end := Exec(cr, last, Round(p, view, queue));
         p in end.rings && end.rotator in end.rings && end.rings[p] == end.rings[end.rotator] == last.rings[last.rotator]
  {
    var mid := Exec(cr, start, first);
    InitialFits(cr, start);
    RunKeepsBuffersFit(cr, start, first);
    RunKeepsServed(cr, mid, later, p, |mid.rings[mid.rotator]|);
    RunKeepsBuffersFit(cr, mid, later);
    CoveredMemberCatchesUp(cr, Exec(cr, mid, later), p, view, queue, |mid.rings[mid.rotator]|);
  }

  lemma CoveredMemberCatchesUp(cr: Crypto, last: Share, p: MemberId, view: seq<(MemberId, AuthRole)>, queue: seq<SignedRotation>, base: nat)
    requires Lawful(cr.box) && Agreement(cr, last) && BuffersFit(last) && Served(last, p, base)
    requires p in last.rings && |last.rings[p]| >= base
    requires OnlyOwner(last, view) && (last.rotator, AuthLog.Owner) in view && InOrder(last.issued, queue)
    ensures MayRun(cr, last, Round(p, view, queue))
    ensures var end := Exec(cr, last, Round(p, view, queue));
      p in end.rings && end.rotator in end.rings && end.rings[p] == end.rings[end.rotator] == last.rings[last.rotator]
  {
    var truth := last.rings[last.rotator];
    RoundReachesIff(cr, last, p, view, queue, |truth|);
    RunKeepsAgreement(cr, last, Round(p, view, queue));
    RoundKeepsTruth(cr, last, p, view, queue);
  }

  /** Rounds leave the rotator's ring alone. */
  lemma {:induction false} RoundKeepsTruth(cr: Crypto, sh: Share, p: MemberId, view: seq<(MemberId, AuthRole)>, queue: seq<SignedRotation>)
    requires Lawful(cr.box) && Agreement(cr, sh) && MayRun(cr, sh, Round(p, view, queue))
    ensures var end := Exec(cr, sh, Round(p, view, queue));
      end.rotator == sh.rotator && sh.rotator in end.rings && end.rings[sh.rotator] == sh.rings[sh.rotator]
    decreases |queue|
  {
    if queue != [] {
      var steps := Round(p, view, queue);
      assert steps[1..] == Round(p, view, queue[1..]);
      DeliveryIsHarmless(cr, sh, p, queue[0], view);
      StepKeepsAgreement(cr, sh, steps[0]);
      RoundKeepsTruth(cr, Next(cr, sh, steps[0]), p, view, queue[1..]);
    }
  }
}
