/** A share with one rotator: rotations, revocations, invitations, deliveries in any order with
    repeats, forgeries, restarts and encrypted writes, over any number of peers. */
module RotationRun {
  import opened Results
  import opened Orders
  import AuthLog
  import opened KeyRing
  import opened Rotation
  import opened RotationBuffer

  type MemberId = AuthLog.MemberId

  type AuthRole = AuthLog.AuthRole

  /** A published rotation with the recipients and randomness it was built from. */
  datatype Issue = Issue(rot: SignedRotation, recipients: seq<MemberId>, random: nat -> nat)

  datatype Blob = Blob(bytes: seq<Byte>, epoch: nat, nonce: seq<Byte>, plaintext: seq<Byte>)

  datatype Share = Share(
    rotator: MemberId,
    members: set<MemberId>,
    rings: map<MemberId, Ring>,
    buffers: map<MemberId, seq<SignedRotation>>,
    issued: map<nat, Issue>,
    tickets: set<(MemberId, Ring)>,
    blobs: set<Blob>)

  datatype Crypto = Crypto(box: Box, cipher: Cipher)

  datatype Step =
    | RotateKey(key: Key)
    | Revoke(target: MemberId, remaining: seq<MemberId>, key: Key, random: nat -> nat)
    | Invite(invitee: MemberId)
    | Join(p: MemberId, keys: Ring)
    | Deliver(p: MemberId, rot: SignedRotation, view: seq<(MemberId, AuthRole)>)
    | Restart(p: MemberId)
    | Write(p: MemberId, nonce: seq<Byte>, plaintext: seq<Byte>)

  /** The receiver's verification under the membership it currently sees. */
  function Through(box: Box, view: seq<(MemberId, AuthRole)>, me: MemberId): Verify {
    (rot: SignedRotation) => VerifyAndDecrypt(box, rot, view, me)
  }

  ghost predicate Sent(issued: map<nat, Issue>, rot: SignedRotation) {
    rot.epoch in issued && issued[rot.epoch].rot == rot
  }

  ghost predicate OnlyOwner(sh: Share, view: seq<(MemberId, AuthRole)>) {
    forall m :: (m, AuthLog.Owner) in view ==> m == sh.rotator
  }

  ghost predicate Started(sh: Share) {
    && sh.rotator in sh.rings
    && sh.rings.Keys == sh.buffers.Keys
    && (forall p :: p in sh.rings ==> sh.rings[p] != [])
  }

  /** Signatures are unforgeable: what carries the rotator's valid signature is what it published. */
  ghost predicate Unforged(cr: Crypto, sh: Share, rot: SignedRotation) {
    cr.box.verifies(rot) && rot.rotator == sh.rotator ==> Sent(sh.issued, rot)
  }

  /** The single rotator keeps its role: it is not revoked and no member sees another owner. Anything
      may arrive, from anyone, as long as it does not forge the rotator's signature. */
  ghost predicate Allowed(cr: Crypto, sh: Share, step: Step) {
    Started(sh) &&
    match step
    case RotateKey(_) => true
    case Revoke(t, remaining, _, _) =>
      && t in sh.members && t != sh.rotator
      && (forall m :: m in remaining <==> m in sh.members && m != t)
    case Invite(m) => m !in sh.members
    case Join(p, keys) => (p, keys) in sh.tickets && p !in sh.rings && keys != []
    case Deliver(p, rot, view) =>
      && p in sh.rings && OnlyOwner(sh, view)
      && Unforged(cr, sh, rot)
    case Restart(p) => p in sh.rings
    case Write(p, nonce, _) => p in sh.rings && |nonce| == NONCE_LEN
  }

  ghost function Next(cr: Crypto, sh: Share, step: Step): Share
    requires Allowed(cr, sh, step)
  {
    var truth := sh.rings[sh.rotator];
    match step
    case RotateKey(key) => sh.(rings := sh.rings[sh.rotator := truth + [key]])
    case Revoke(t, remaining, key, random) =>
      var rotated := sh.(rings := sh.rings[sh.rotator := truth + [key]], members := sh.members - {t});
      (match Build(cr.box, random, sh.rotator, |truth| + 1, key, remaining)
       case None => rotated
       case Some(rot) => rotated.(issued := sh.issued[|truth| + 1 := Issue(rot, remaining, random)]))
    case Invite(m) => sh.(members := sh.members + {m}, tickets := sh.tickets + {(m, truth)})
    case Join(p, keys) => sh.(rings := sh.rings[p := keys], buffers := sh.buffers[p := []])
    case Deliver(p, rot, view) =>
      var (ring, buffer, _) := Receive(Through(cr.box, view, p), sh.rings[p], sh.buffers[p], rot);
      sh.(rings := sh.rings[p := ring], buffers := sh.buffers[p := buffer])
    case Restart(p) => sh.(buffers := sh.buffers[p := []])
    case Write(p, nonce, plaintext) =>
      sh.(blobs := sh.blobs + {Blob(Encrypt(cr.cipher, sh.rings[p], nonce, plaintext), |sh.rings[p]|, nonce, plaintext)})
  }

  ghost predicate MayRun(cr: Crypto, sh: Share, steps: seq<Step>)
    decreases |steps|
  {
    steps == [] || (Allowed(cr, sh, steps[0]) && MayRun(cr, Next(cr, sh, steps[0]), steps[1..]))
  }

  ghost function Exec(cr: Crypto, sh: Share, steps: seq<Step>): Share
    requires MayRun(cr, sh, steps)
    decreases |steps|
  {
    if steps == [] then sh else Exec(cr, Next(cr, sh, steps[0]), steps[1..])
  }

  // ---- The invariant ----

  ghost predicate RingsAgree(sh: Share) {
    && Started(sh)
    && (forall p :: p in sh.rings ==> sh.rings[p] <= sh.rings[sh.rotator])
    && (forall t :: t in sh.tickets ==> t.1 <= sh.rings[sh.rotator])
  }

  ghost predicate BuffersSent(buffers: map<MemberId, seq<SignedRotation>>, issued: map<nat, Issue>) {
    forall p, r {:trigger r in buffers[p]} :: p in buffers && r in buffers[p] ==> Sent(issued, r)
  }

  ghost predicate BuiltFrom(cr: Crypto, rotator: MemberId, truth: Ring, epoch: nat, i: Issue) {
    1 <= epoch <= |truth| && i.rot.epoch == epoch &&
    Build(cr.box, i.random, rotator, epoch, truth[epoch - 1], i.recipients) == Some(i.rot)
  }

  ghost predicate IssuedHonest(cr: Crypto, sh: Share) {
    sh.rotator in sh.rings &&
    forall e :: e in sh.issued ==> BuiltFrom(cr, sh.rotator, sh.rings[sh.rotator], e, sh.issued[e])
  }

  ghost predicate WrittenUnder(cr: Crypto, truth: Ring, b: Blob) {
    1 <= b.epoch <= |truth| && |b.nonce| == NONCE_LEN &&
    b.bytes == Encrypt(cr.cipher, truth[..b.epoch], b.nonce, b.plaintext)
  }

  ghost predicate BlobsHonest(cr: Crypto, sh: Share) {
    sh.rotator in sh.rings &&
    forall b :: b in sh.blobs ==> WrittenUnder(cr, sh.rings[sh.rotator], b)
  }

  ghost predicate Agreement(cr: Crypto, sh: Share) {
    RingsAgree(sh) && BuffersSent(sh.buffers, sh.issued) && IssuedHonest(cr, sh) && BlobsHonest(cr, sh)
  }

  /** The creator alone, with its first key. */
  ghost predicate Initial(sh: Share) {
    && sh.members == {sh.rotator} && sh.rings.Keys == sh.buffers.Keys == {sh.rotator}
    && |sh.rings[sh.rotator]| == 1 && sh.buffers[sh.rotator] == []
    && sh.issued == map[] && sh.tickets == {} && sh.blobs == {}
  }

  /** If `rot` opens at all, it opens to the rotator's key. */
  ghost predicate Harmless(verify: Verify, truth: Ring, rot: SignedRotation) {
    verify(rot).OkForUs? ==> 1 <= rot.epoch <= |truth| && verify(rot).key == truth[rot.epoch - 1]
  }

  lemma SentIsHarmless(cr: Crypto, sh: Share, rot: SignedRotation, view: seq<(MemberId, AuthRole)>, p: MemberId)
    requires Lawful(cr.box) && IssuedHonest(cr, sh) && Sent(sh.issued, rot)
    ensures Harmless(Through(cr.box, view, p), sh.rings[sh.rotator], rot)
    ensures VerifyAndDecrypt(cr.box, rot, view, p).OkForUs? ==> p in sh.issued[rot.epoch].recipients
  {
    var i := sh.issued[rot.epoch];
    assert BuiltFrom(cr, sh.rotator, sh.rings[sh.rotator], rot.epoch, i);
    RotationOpensExactlyForRecipients(cr.box, i.random, sh.rotator, rot.epoch, sh.rings[sh.rotator][rot.epoch - 1], i.recipients, view, p);
  }

  /** Verification lets through only what the rotator published. */
  lemma OpensOnlySent(cr: Crypto, sh: Share, rot: SignedRotation, view: seq<(MemberId, AuthRole)>, p: MemberId)
    requires OnlyOwner(sh, view) && Unforged(cr, sh, rot)
    ensures VerifyAndDecrypt(cr.box, rot, view, p).OkForUs? ==> Sent(sh.issued, rot)
  {
    VerificationDecides(cr.box, rot, view, p);
  }

  lemma TryKeepsPrefix(verify: Verify, truth: Ring, ring: Ring, rot: SignedRotation)
    requires ring != [] && ring <= truth && Harmless(verify, truth, rot)
    ensures TryInstall(verify, ring, rot).0 <= truth
    ensures TryInstall(verify, ring, rot).1.Ok?
    ensures TryInstall(verify, ring, rot).1 == Ok(Buffered) ==> verify(rot).OkForUs?
  {
  }

  lemma PushKeepsEntries(buffer: seq<SignedRotation>, rot: SignedRotation)
    ensures forall r :: r in Push(buffer, rot) ==> r in buffer || r == rot
  {
    SortKeepsEntries(buffer);
    forall r | r in Push(buffer, rot) ensures r in buffer || r == rot {
      assert r in SortBy(EpochLess, buffer) <==> r in buffer;
    }
  }

  lemma {:induction false} DrainKeepsPrefix(verify: Verify, truth: Ring, ring: Ring, buffer: seq<SignedRotation>)
    requires ring != [] && ring <= truth
    requires forall r :: r in buffer ==> Harmless(verify, truth, r)
    ensures var (last, rest) := Drain(verify, ring, buffer);
      last <= truth && forall r :: r in rest ==> r in buffer
    decreases |buffer|
  {
    if buffer != [] {
      SortKeepsEntries(buffer);
      var s := SortBy(EpochLess, buffer);
      assert s == [s[0]] + s[1..];
      assert forall r :: r in s[1..] ==> r in s;
      assert s[0] in s;
      TryKeepsPrefix(verify, truth, ring, s[0]);
      if TryInstall(verify, ring, s[0]).1 == Ok(Buffered) {
        PushKeepsEntries(s[1..], s[0]);
      } else {
        DrainKeepsPrefix(verify, truth, TryInstall(verify, ring, s[0]).0, s[1..]);
      }
    }
  }

  /** One delivery: the ring stays a prefix of the rotator's, no conflict is reported, and only
      what was buffered or has just verified is buffered afterwards. */
  lemma ReceiveKeepsPrefix(verify: Verify, truth: Ring, ring: Ring, buffer: seq<SignedRotation>, rot: SignedRotation)
    requires ring != [] && ring <= truth && Harmless(verify, truth, rot)
    requires forall r :: r in buffer ==> Harmless(verify, truth, r)
    ensures var (last, rest, error) := Receive(verify, ring, buffer, rot);
      && last <= truth && error == None
      && forall r :: r in rest ==> r in buffer || (r == rot && verify(rot).OkForUs?)
  {
    TryKeepsPrefix(verify, truth, ring, rot);
    var (next, attempt) := TryInstall(verify, ring, rot);
    if attempt == Ok(Applied) {
      DrainKeepsPrefix(verify, truth, next, buffer);
    } else if attempt == Ok(Buffered) {
      PushKeepsEntries(buffer, rot);
    }
  }

  lemma DeliveryIsHarmless(cr: Crypto, sh: Share, p: MemberId, rot: SignedRotation, view: seq<(MemberId, AuthRole)>)
    requires Lawful(cr.box) && Agreement(cr, sh) && Allowed(cr, sh, Deliver(p, rot, view))
    ensures var (last, rest, error) := Receive(Through(cr.box, view, p), sh.rings[p], sh.buffers[p], rot);
      && last <= sh.rings[sh.rotator] && error == None
      && forall r :: r in rest ==> Sent(sh.issued, r)
  {
    var verify, truth := Through(cr.box, view, p), sh.rings[sh.rotator];
    OpensOnlySent(cr, sh, rot, view, p);
    if verify(rot).OkForUs? {
      SentIsHarmless(cr, sh, rot, view, p);
    }
    forall r | r in sh.buffers[p] ensures Harmless(verify, truth, r) {
      SentIsHarmless(cr, sh, r, view, p);
    }
    ReceiveKeepsPrefix(verify, truth, sh.rings[p], sh.buffers[p], rot);
  }

  /** The rotator's ring only ever grows, which keeps everything said about its prefixes true. */
  lemma TruthGrows(cr: Crypto, sh: Share, truth: Ring, key: Key)
    requires IssuedHonest(cr, sh) && BlobsHonest(cr, sh) && truth == sh.rings[sh.rotator]
    ensures forall e :: e in sh.issued ==> BuiltFrom(cr, sh.rotator, truth + [key], e, sh.issued[e])
    ensures forall b :: b in sh.blobs ==> WrittenUnder(cr, truth + [key], b)
  {
    forall b | b in sh.blobs ensures WrittenUnder(cr, truth + [key], b) {
      assert (truth + [key])[..b.epoch] == truth[..b.epoch];
    }
  }

  lemma RotateKeepsAgreement(cr: Crypto, sh: Share, key: Key, members: set<MemberId>)
    requires Agreement(cr, sh)
    ensures Agreement(cr, sh.(rings := sh.rings[sh.rotator := sh.rings[sh.rotator] + [key]], members := members))
  {
    TruthGrows(cr, sh, sh.rings[sh.rotator], key);
  }

  lemma IssueKeepsAgreement(cr: Crypto, sh: Share, i: Issue)
    requires Agreement(cr, sh) && i.rot.epoch !in sh.issued
    requires BuiltFrom(cr, sh.rotator, sh.rings[sh.rotator], i.rot.epoch, i)
    ensures Agreement(cr, sh.(issued := sh.issued[i.rot.epoch := i]))
  {
    var more := sh.(issued := sh.issued[i.rot.epoch := i]);
    forall p, r | p in more.buffers && r in more.buffers[p] ensures Sent(more.issued, r) {
      assert Sent(sh.issued, r);
    }
  }

  lemma DeliverKeepsAgreement(cr: Crypto, sh: Share, step: Step)
    requires Lawful(cr.box) && Agreement(cr, sh) && Allowed(cr, sh, step) && step.Deliver?
    ensures Agreement(cr, Next(cr, sh, step))
  {
    var now, p := Next(cr, sh, step), step.p;
    DeliveryIsHarmless(cr, sh, p, step.rot, step.view);
    assert now.rings[sh.rotator] == sh.rings[sh.rotator];
    forall q, r | q in now.buffers && r in now.buffers[q] ensures Sent(now.issued, r) {
      assert Sent(sh.issued, r);
    }
  }

  lemma WriteKeepsAgreement(cr: Crypto, sh: Share, step: Step)
    requires Agreement(cr, sh) && Allowed(cr, sh, step) && step.Write?
    ensures Agreement(cr, Next(cr, sh, step))
  {
    var truth, ring := sh.rings[sh.rotator], sh.rings[step.p];
    assert truth[..|ring|] == ring;
  }

  lemma IssuedWithinRing(cr: Crypto, sh: Share)
    requires IssuedHonest(cr, sh)
    ensures forall e :: e in sh.issued ==> 1 <= e <= |sh.rings[sh.rotator]|
  {
    forall e | e in sh.issued ensures 1 <= e <= |sh.rings[sh.rotator]| {
      assert BuiltFrom(cr, sh.rotator, sh.rings[sh.rotator], e, sh.issued[e]);
    }
  }

  /** A revocation rotates the ring, and then publishes the new epoch unless a recipient key is malformed. */
  lemma RevokeShape(cr: Crypto, sh: Share, step: Step) returns (rotated: Share, i: Option<Issue>)
    requires Allowed(cr, sh, step) && step.Revoke?
    ensures rotated == sh.(rings := sh.rings[sh.rotator := sh.rings[sh.rotator] + [step.key]], members := sh.members - {step.target})
    ensures i == None ==> Next(cr, sh, step) == rotated
    ensures Build(cr.box, step.random, sh.rotator, |sh.rings[sh.rotator]| + 1, step.key, step.remaining) ==
            if i.Some? then Some(i.value.rot) else None
    ensures i.Some? ==>
      && i.value.rot.epoch == |sh.rings[sh.rotator]| + 1
      && BuiltFrom(cr, sh.rotator, rotated.rings[sh.rotator], i.value.rot.epoch, i.value)
      && Next(cr, sh, step) == rotated.(issued := rotated.issued[i.value.rot.epoch := i.value])
  {
    var truth := sh.rings[sh.rotator];
    rotated := sh.(rings := sh.rings[sh.rotator := truth + [step.key]], members := sh.members - {step.target});
    match Build(cr.box, step.random, sh.rotator, |truth| + 1, step.key, step.remaining)
    case None => i := None;
    case Some(rot) => i := Some(Issue(rot, step.remaining, step.random));
  }

  lemma RevokeKeepsAgreement(cr: Crypto, sh: Share, step: Step)
    requires Agreement(cr, sh) && Allowed(cr, sh, step) && step.Revoke?
    ensures Agreement(cr, Next(cr, sh, step))
  {
    var rotated, i := RevokeShape(cr, sh, step);
    RotateKeepsAgreement(cr, sh, step.key, sh.members - {step.target});
    if i.Some? {
      IssuedWithinRing(cr, sh);
      IssueKeepsAgreement(cr, rotated, i.value);
    }
  }

  lemma MembershipKeepsAgreement(cr: Crypto, sh: Share, step: Step)
    requires Agreement(cr, sh) && Allowed(cr, sh, step) && (step.Invite? || step.Join? || step.Restart?)
    ensures Agreement(cr, Next(cr, sh, step))
  {
  }

  lemma StepKeepsAgreement(cr: Crypto, sh: Share, step: Step)
    requires Lawful(cr.box) && Agreement(cr, sh) && Allowed(cr, sh, step)
    ensures Agreement(cr, Next(cr, sh, step))
  {
    match step
    case RotateKey(key) => RotateKeepsAgreement(cr, sh, key, sh.members);
    case Revoke(_, _, _, _) => RevokeKeepsAgreement(cr, sh, step);
    case Deliver(_, _, _) => DeliverKeepsAgreement(cr, sh, step);
    case Write(_, _, _) => WriteKeepsAgreement(cr, sh, step);
    case _ => MembershipKeepsAgreement(cr, sh, step);
  }

  ghost predicate RingsGrow(a: Share, b: Share) {
    && a.rotator == b.rotator && a.blobs <= b.blobs && a.tickets <= b.tickets
    && forall p :: p in a.rings ==> p in b.rings && a.rings[p] <= b.rings[p]
  }

  lemma StepGrowsRings(cr: Crypto, sh: Share, step: Step)
    requires Allowed(cr, sh, step)
    ensures RingsGrow(sh, Next(cr, sh, step))
  {
  }

  lemma InitialAgrees(cr: Crypto, sh: Share)
    requires Initial(sh)
    ensures Agreement(cr, sh)
  {
    assert sh.rotator in sh.rings;
  }

  /** Over any run, every ring is a prefix of the rotator's; rings, tickets and blobs only grow. */
  lemma {:induction false} RunKeepsAgreement(cr: Crypto, sh: Share, steps: seq<Step>)
    requires Lawful(cr.box) && Agreement(cr, sh) && MayRun(cr, sh, steps)
    ensures Agreement(cr, Exec(cr, sh, steps)) && RingsGrow(sh, Exec(cr, sh, steps))
    decreases |steps|
  {
    if steps != [] {
      StepKeepsAgreement(cr, sh, steps[0]);
      StepGrowsRings(cr, sh, steps[0]);
      RunKeepsAgreement(cr, Next(cr, sh, steps[0]), steps[1..]);
    }
  }

  /** The error "epoch already populated with a different key" is unreachable: what opens for a peer, at
      an epoch its ring reaches, opens to the very key it holds there. */
  lemma NoConflictIsReachable(cr: Crypto, start: Share, steps: seq<Step>, p: MemberId, rot: SignedRotation, view: seq<(MemberId, AuthRole)>)
    requires Lawful(cr.box) && Initial(start) && MayRun(cr, start, steps)
    requires Allowed(cr, Exec(cr, start, steps), Deliver(p, rot, view))
    ensures var sh := Exec(cr, start, steps);
      && Receive(Through(cr.box, view, p), sh.rings[p], sh.buffers[p], rot).2 == None
      && var outcome := VerifyAndDecrypt(cr.box, rot, view, p);
         outcome.OkForUs? && rot.epoch <= |sh.rings[p]| ==> 1 <= rot.epoch && outcome.key == sh.rings[p][rot.epoch - 1]
  {
    InitialAgrees(cr, start);
    RunKeepsAgreement(cr, start, steps);
    var sh := Exec(cr, start, steps);
    DeliveryIsHarmless(cr, sh, p, rot, view);
    OpensOnlySent(cr, sh, rot, view, p);
    if VerifyAndDecrypt(cr.box, rot, view, p).OkForUs? {
      SentIsHarmless(cr, sh, rot, view, p);
    }
  }

  /** What one peer wrote reads the same on every peer whose ring reaches the writing epoch, and is
      refused for want of the key on every other peer. */
  lemma BlobsReadAlike(cr: Crypto, start: Share, steps: seq<Step>, b: Blob, q: MemberId)
    requires Lawful(cr.box) && Inverse(cr.cipher) && Initial(start) && MayRun(cr, start, steps)
    requires var sh := Exec(cr, start, steps);
      sh.rotator in sh.rings && b in sh.blobs && q in sh.rings && |sh.rings[sh.rotator]| < Pow256(EPOCH_LEN)
    ensures var ring := Exec(cr, start, steps).rings[q];
      Decrypt(cr.cipher, ring, b.bytes) == if b.epoch <= |ring| then Ok(b.plaintext) else Err(NoKey(b.epoch))
  {
    InitialAgrees(cr, start);
    RunKeepsAgreement(cr, start, steps);
    var sh := Exec(cr, start, steps);
    var truth, ring := sh.rings[sh.rotator], sh.rings[q];
    assert WrittenUnder(cr, truth, b);
    DecryptInvertsEncrypt(cr.cipher, truth[..b.epoch], ring, b.nonce, b.plaintext);
  }

  /** The blob of a write: the plaintext under the current epoch of the writer. */
  ghost predicate Written(cr: Crypto, sh: Share, step: Step, b: Blob)
    requires Allowed(cr, sh, step) && step.Write?
  {
    var ring := sh.rings[step.p];
    b.plaintext == step.plaintext && b.epoch == |ring| && WrittenUnder(cr, ring, b)
  }

  /** What a peer does by itself: a newcomer takes the ring of its ticket and an empty buffer, a restart
      forgets the buffer only, and what is written joins the blobs. */
  lemma PeerSteps(cr: Crypto, sh: Share, step: Step)
    requires Allowed(cr, sh, step)
    ensures step.Join? ==> var next := Next(cr, sh, step);
      next == sh.(rings := next.rings, buffers := next.buffers)
      && next.rings == sh.rings[step.p := step.keys] && next.buffers == sh.buffers[step.p := []]
    ensures step.Restart? ==> Next(cr, sh, step) == sh.(buffers := sh.buffers[step.p := []])
    ensures step.Write? ==> exists b :: Written(cr, sh, step, b) && Next(cr, sh, step) == sh.(blobs := sh.blobs + {b})
  {
    if step.Write? {
      var ring := sh.rings[step.p];
      var b := Blob(Encrypt(cr.cipher, ring, step.nonce, step.plaintext), |ring|, step.nonce, step.plaintext);
      assert ring[..|ring|] == ring && Written(cr, sh, step, b);
    }
  }

  lemma WholeRingReads(cr: Crypto, ring: Ring, b: Blob)
    requires Inverse(cr.cipher) && WrittenUnder(cr, ring, b) && |ring| < Pow256(EPOCH_LEN)
    ensures Decrypt(cr.cipher, ring, b.bytes) == Ok(b.plaintext)
  {
    DecryptInvertsEncrypt(cr.cipher, ring[..b.epoch], ring, b.nonce, b.plaintext);
  }

  /** Who joins with the ticket of its invitation reads everything that was written before it, by anyone
      and under any epoch. */
  lemma InvitedReadsAllBefore(cr: Crypto, start: Share, before: seq<Step>, m: MemberId, between: seq<Step>, b: Blob)
    requires Lawful(cr.box) && Inverse(cr.cipher) && Initial(start) && MayRun(cr, start, before)
    requires var mid := Exec(cr, start, before);
      && Allowed(cr, mid, Invite(m)) && b in mid.blobs && |mid.rings[mid.rotator]| < Pow256(EPOCH_LEN)
      && MayRun(cr, Next(cr, mid, Invite(m)), between)
      && m !in Exec(cr, Next(cr, mid, Invite(m)), between).rings
    ensures var mid := Exec(cr, start, before);
      var last := Exec(cr, Next(cr, mid, Invite(m)), between);
      var join := Join(m, mid.rings[mid.rotator]);
      && Allowed(cr, last, join)
      && var joined := Next(cr, last, join);
         m in joined.rings && b in joined.blobs && Decrypt(cr.cipher, joined.rings[m], b.bytes) == Ok(b.plaintext)
  {
    var mid := Exec(cr, start, before);
    InitialAgrees(cr, start);
    RunKeepsAgreement(cr, start, before);
    StepKeepsAgreement(cr, mid, Invite(m));
    RunKeepsAgreement(cr, Next(cr, mid, Invite(m)), between);
    var truth := mid.rings[mid.rotator];
    assert (m, truth) in Next(cr, mid, Invite(m)).tickets;
    WholeRingReads(cr, truth, b);
  }

  // ---- Revocation ----

  /** Nothing that reaches `t` carries a key of an epoch after `limit`. */
  ghost predicate LockedOut(sh: Share, t: MemberId, limit: nat) {
    && t != sh.rotator && t !in sh.members
    && (t in sh.rings ==> |sh.rings[t]| <= limit)
    && (forall e :: e in sh.issued && e > limit ==> t !in sh.issued[e].recipients)
    && (forall k :: (t, k) in sh.tickets ==> |k| <= limit)
  }

  /** Rotations that open for the receiver only up to `limit` cannot take its ring further. */
  lemma {:induction false} DrainStaysBelow(verify: Verify, ring: Ring, buffer: seq<SignedRotation>, limit: nat)
    requires ring != [] && |ring| <= limit
    requires forall r :: r in buffer && verify(r).OkForUs? ==> r.epoch <= limit
    ensures |Drain(verify, ring, buffer).0| <= limit
    decreases |buffer|
  {
    if buffer != [] {
      SortKeepsEntries(buffer);
      var s := SortBy(EpochLess, buffer);
      assert s[0] in s;
      assert forall r :: r in s[1..] ==> r in s;
      if TryInstall(verify, ring, s[0]).1 != Ok(Buffered) {
        DrainStaysBelow(verify, TryInstall(verify, ring, s[0]).0, s[1..], limit);
      }
    }
  }

  lemma ReceiveStaysBelow(verify: Verify, ring: Ring, buffer: seq<SignedRotation>, rot: SignedRotation, limit: nat)
    requires ring != [] && |ring| <= limit
    requires verify(rot).OkForUs? ==> rot.epoch <= limit
    requires forall r :: r in buffer && verify(r).OkForUs? ==> r.epoch <= limit
    ensures |Receive(verify, ring, buffer, rot).0| <= limit
  {
    var (next, attempt) := TryInstall(verify, ring, rot);
    if attempt == Ok(Applied) {
      DrainStaysBelow(verify, next, buffer, limit);
    }
  }

  /** A published rotation opens for a locked-out member only up to the limit. */
  lemma SentOpensBelow(cr: Crypto, sh: Share, t: MemberId, limit: nat, rot: SignedRotation, view: seq<(MemberId, AuthRole)>)
    requires Lawful(cr.box) && IssuedHonest(cr, sh) && LockedOut(sh, t, limit) && Sent(sh.issued, rot)
    ensures Through(cr.box, view, t)(rot).OkForUs? ==> rot.epoch <= limit
  {
    SentIsHarmless(cr, sh, rot, view, t);
  }

  lemma DeliveryStaysBelow(cr: Crypto, sh: Share, t: MemberId, limit: nat, rot: SignedRotation, view: seq<(MemberId, AuthRole)>)
    requires Lawful(cr.box) && Agreement(cr, sh) && LockedOut(sh, t, limit)
    requires Allowed(cr, sh, Deliver(t, rot, view))
    ensures |Receive(Through(cr.box, view, t), sh.rings[t], sh.buffers[t], rot).0| <= limit
  {
    var verify := Through(cr.box, view, t);
    OpensOnlySent(cr, sh, rot, view, t);
    if verify(rot).OkForUs? {
      SentOpensBelow(cr, sh, t, limit, rot, view);
    }
    forall r | r in sh.buffers[t] && verify(r).OkForUs? ensures r.epoch <= limit {
      SentOpensBelow(cr, sh, t, limit, r, view);
    }
    ReceiveStaysBelow(verify, sh.rings[t], sh.buffers[t], rot, limit);
  }

  lemma OthersKeepLockedOut(cr: Crypto, sh: Share, step: Step, t: MemberId, limit: nat)
    requires LockedOut(sh, t, limit) && Allowed(cr, sh, step)
    requires step != Invite(t) && !step.Deliver? && !step.Revoke?
    ensures LockedOut(Next(cr, sh, step), t, limit)
  {
  }

  lemma RevokeKeepsLockedOut(cr: Crypto, sh: Share, step: Step, t: MemberId, limit: nat)
    requires LockedOut(sh, t, limit) && Allowed(cr, sh, step) && step.Revoke?
    ensures LockedOut(Next(cr, sh, step), t, limit)
  {
    assert t !in step.remaining;
  }

  lemma StepKeepsLockedOut(cr: Crypto, sh: Share, step: Step, t: MemberId, limit: nat)
    requires Lawful(cr.box) && Agreement(cr, sh) && LockedOut(sh, t, limit) && Allowed(cr, sh, step)
    requires step != Invite(t)
    ensures LockedOut(Next(cr, sh, step), t, limit)
  {
    if step.Deliver? {
      if step.p == t {
        DeliveryStaysBelow(cr, sh, t, limit, step.rot, step.view);
      }
    } else if step.Revoke? {
      RevokeKeepsLockedOut(cr, sh, step, t, limit);
    } else {
      OthersKeepLockedOut(cr, sh, step, t, limit);
    }
  }

  lemma RevokeLocksOut(cr: Crypto, sh: Share, step: Step)
    requires Agreement(cr, sh) && Allowed(cr, sh, step) && step.Revoke?
    ensures LockedOut(Next(cr, sh, step), step.target, |sh.rings[sh.rotator]|)
  {
    var t, limit := step.target, |sh.rings[sh.rotator]|;
    IssuedWithinRing(cr, sh);
    forall k | (t, k) in sh.tickets ensures |k| <= limit {
      assert (t, k).1 <= sh.rings[sh.rotator];
    }
  }

  lemma {:induction false} RunKeepsLockedOut(cr: Crypto, sh: Share, steps: seq<Step>, t: MemberId, limit: nat)
    requires Lawful(cr.box) && Agreement(cr, sh) && LockedOut(sh, t, limit) && MayRun(cr, sh, steps)
    requires Invite(t) !in steps
    ensures LockedOut(Exec(cr, sh, steps), t, limit)
    decreases |steps|
  {
    if steps != [] {
      StepKeepsLockedOut(cr, sh, steps[0], t, limit);
      StepKeepsAgreement(cr, sh, steps[0]);
      RunKeepsLockedOut(cr, Next(cr, sh, steps[0]), steps[1..], t, limit);
    }
  }

  /** From its revocation until it is invited again, a member's ring stays within the epochs before
      the revocation, and whatever anyone writes under a later epoch stays closed to it. */
  lemma RevokedStaysOut(cr: Crypto, before: Share, revoke: Step, steps: seq<Step>)
    requires Lawful(cr.box) && Inverse(cr.cipher) && Agreement(cr, before)
    requires Allowed(cr, before, revoke) && revoke.Revoke?
    requires MayRun(cr, Next(cr, before, revoke), steps) && Invite(revoke.target) !in steps
    ensures var last, t, limit := Exec(cr, Next(cr, before, revoke), steps), revoke.target, |before.rings[before.rotator]|;
      && (t in last.rings ==> |last.rings[t]| <= limit)
      && (t in last.rings && last.rotator in last.rings && |last.rings[last.rotator]| < Pow256(EPOCH_LEN) ==>
            forall b :: b in last.blobs && b.epoch > limit ==> Decrypt(cr.cipher, last.rings[t], b.bytes) == Err(NoKey(b.epoch)))
  {
    var mid := Next(cr, before, revoke);
    var last, t, limit := Exec(cr, mid, steps), revoke.target, |before.rings[before.rotator]|;
    StepKeepsAgreement(cr, before, revoke);
    RevokeLocksOut(cr, before, revoke);
    RunKeepsLockedOut(cr, mid, steps, t, limit);
    RunKeepsAgreement(cr, mid, steps);
    if t in last.rings && |last.rings[last.rotator]| < Pow256(EPOCH_LEN) {
      forall b | b in last.blobs && b.epoch > limit ensures Decrypt(cr.cipher, last.rings[t], b.bytes) == Err(NoKey(b.epoch)) {
        assert WrittenUnder(cr, last.rings[last.rotator], b);
        DecryptInvertsEncrypt(cr.cipher, last.rings[last.rotator][..b.epoch], last.rings[t], b.nonce, b.plaintext);
      }
    }
  }

  /** A remaining member that is up to date and lists the rotator installs the new key on delivery. */
  lemma RemainingMemberFollows(cr: Crypto, before: Share, revoke: Step, p: MemberId, view: seq<(MemberId, AuthRole)>)
    requires Lawful(cr.box) && Agreement(cr, before) && Allowed(cr, before, revoke) && revoke.Revoke?
    requires p in revoke.remaining && p in before.rings && p != before.rotator
    requires before.rings[p] == before.rings[before.rotator] && (before.rotator, AuthLog.Owner) in view
    requires Build(cr.box, revoke.random, before.rotator, |before.rings[before.rotator]| + 1, revoke.key, revoke.remaining).Some?
    ensures var after := Next(cr, before, revoke);
      var epoch := |before.rings[before.rotator]| + 1;
      && epoch in after.issued
      && var (ring, _, error) := Receive(Through(cr.box, view, p), after.rings[p], after.buffers[p], after.issued[epoch].rot);
         error == None && after.rings[after.rotator] <= ring
  {
    var epoch := |before.rings[before.rotator]| + 1;
    RotationOpensExactlyForRecipients(cr.box, revoke.random, before.rotator, epoch, revoke.key, revoke.remaining, view, p);
  }
}
