/** Signed, per-recipient sealed epoch keys (src/rotation.rs). */
module Rotation {
  import opened Results
  import opened Orders
  import opened AuthLog
  import opened KeyRing

  datatype KeyEnvelope = KeyEnvelope(recipient: MemberId, ephemeral: nat, nonce: nat, ciphertext: seq<Byte>)

  datatype SignedRotation = SignedRotation(epoch: nat, rotator: MemberId, signature: nat, envelopes: seq<KeyEnvelope>)

  datatype VerifyOutcome = OkForUs(key: Key) | NotForUs | NotAManager | BadSignature | DecryptFailed

  /** Public-key boxes and signatures. A member stands for the holder of its private key; `seal`
      takes the randomness of one envelope. */
  datatype Box = Box(
    validKey: MemberId -> bool,
    seal: (MemberId, nat, seq<Byte>) -> (nat, nat, seq<Byte>),
    open: (MemberId, nat, nat, seq<Byte>) -> Option<seq<Byte>>,
    sign: (MemberId, nat, seq<KeyEnvelope>) -> nat,
    verifies: SignedRotation -> bool)

  ghost predicate Lawful(box: Box) {
    && (forall m, r, k :: box.validKey(m) ==>
          var (e, n, c) := box.seal(m, r, k); box.open(m, e, n, c) == Some(k))
    && (forall m, epoch, es :: box.verifies(SignedRotation(epoch, m, box.sign(m, epoch, es), es)))
  }

  const MemberLess: (MemberId, MemberId) -> bool := (a: MemberId, b: MemberId) => a < b

  /** Drop equal neighbours. */
  function Dedup(s: seq<MemberId>): seq<MemberId> {
    if |s| < 2 then s
    else if s[0] == s[1] then Dedup(s[1..])
    else [s[0]] + Dedup(s[1..])
  }

  function Recipients(members: seq<MemberId>): seq<MemberId> {
    Dedup(SortBy(MemberLess, members))
  }

  function Envelope(box: Box, random: nat -> nat, key: Key, recipients: seq<MemberId>, i: nat): KeyEnvelope
    requires i < |recipients|
  {
    var (e, n, c) := box.seal(recipients[i], random(i), key);
    KeyEnvelope(recipients[i], e, n, c)
  }

  function Envelopes(box: Box, random: nat -> nat, key: Key, recipients: seq<MemberId>): seq<KeyEnvelope> {
    seq(|recipients|, i requires 0 <= i < |recipients| => Envelope(box, random, key, recipients, i))
  }

  /** Absent when some recipient's public key is malformed. */
  function Build(box: Box, random: nat -> nat, rotator: MemberId, epoch: nat, key: Key, members: seq<MemberId>): Option<SignedRotation> {
    if exists m | m in members :: !box.validKey(m) then None
    else
      var es := Envelopes(box, random, key, Recipients(members));
      Some(SignedRotation(epoch, rotator, box.sign(rotator, epoch, es), es))
  }

  function FindEnvelope(es: seq<KeyEnvelope>, me: MemberId): Option<KeyEnvelope> {
    if es == [] then None
    else if es[0].recipient == me then Some(es[0])
    else FindEnvelope(es[1..], me)
  }

  /** `members` is what the receiver's own membership log lists. */
  function VerifyAndDecrypt(box: Box, rot: SignedRotation, members: seq<(MemberId, AuthRole)>, me: MemberId): VerifyOutcome {
    if !box.verifies(rot) then BadSignature
    else if (rot.rotator, Owner) !in members then NotAManager
    else
      match FindEnvelope(rot.envelopes, me)
      case None => NotForUs
      case Some(e) =>
        match box.open(me, e.ephemeral, e.nonce, e.ciphertext)
        case None => DecryptFailed
        case Some(p) => if |p| == KEY_LEN then OkForUs(p) else DecryptFailed
  }

  /** The first envelope for `me`. */
  ghost predicate OursAt(es: seq<KeyEnvelope>, me: MemberId, i: nat) {
    && i < |es| && es[i].recipient == me
    && forall j :: 0 <= j < i ==> es[j].recipient != me
  }

  lemma {:induction false} FindFirst(es: seq<KeyEnvelope>, me: MemberId)
    ensures FindEnvelope(es, me) == None <==> forall e :: e in es ==> e.recipient != me
    ensures FindEnvelope(es, me).Some? <==> exists i: nat :: OursAt(es, me, i)
    ensures forall i: nat :: OursAt(es, me, i) ==> FindEnvelope(es, me) == Some(es[i])
  {
    if es != [] {
      assert es == [es[0]] + es[1..];
      FindFirst(es[1..], me);
      forall i: nat | OursAt(es, me, i) ensures FindEnvelope(es, me) == Some(es[i]) {
        if i > 0 {
          assert es[0].recipient != me && OursAt(es[1..], me, i - 1);
        }
      }
      if es[0].recipient == me {
        assert OursAt(es, me, 0);
      } else if i: nat :| OursAt(es[1..], me, i) {
        assert OursAt(es, me, i + 1);
      }
    }
  }

  /** What an envelope gives its recipient: a key of the right length, or nothing. */
  function Unsealed(box: Box, me: MemberId, e: KeyEnvelope): Option<Key> {
    match box.open(me, e.ephemeral, e.nonce, e.ciphertext)
    case Some(p) => if |p| == KEY_LEN then Some(p) else None
    case None => None
  }

  /** Verification decides four questions in order, for any rotation, whoever made it: is it signed by
      the rotator it names, is that one a listed owner, is there an envelope for us, does it open. */
  lemma VerificationDecides(box: Box, rot: SignedRotation, members: seq<(MemberId, AuthRole)>, me: MemberId)
    ensures var outcome := VerifyAndDecrypt(box, rot, members, me);
      var owned := box.verifies(rot) && (rot.rotator, Owner) in members;
      var ours := exists e :: e in rot.envelopes && e.recipient == me;
      && (outcome == BadSignature <==> !box.verifies(rot))
      && (outcome == NotAManager <==> box.verifies(rot) && (rot.rotator, Owner) !in members)
      && (outcome == NotForUs <==> owned && !ours)
      && (outcome == DecryptFailed <==>
            owned && exists i: nat :: OursAt(rot.envelopes, me, i) && Unsealed(box, me, rot.envelopes[i]) == None)
      && (forall k :: outcome == OkForUs(k) <==>
            owned && exists i: nat :: OursAt(rot.envelopes, me, i) && Unsealed(box, me, rot.envelopes[i]) == Some(k))
  {
    FindFirst(rot.envelopes, me);
    if i: nat :| OursAt(rot.envelopes, me, i) {
      assert rot.envelopes[i] in rot.envelopes;
    }
  }

  method BuildSignedRotation(box: Box, random: nat -> nat, rotator: MemberId, epoch: nat, key: Key, members: seq<MemberId>)
    returns (r: Option<SignedRotation>)
    ensures r == Build(box, random, rotator, epoch, key, members)
  {
    var sorted := Recipients(members);
    RecipientsAreMembers(members);
    var es: seq<KeyEnvelope> := [];
    var i := 0;
    while i < |sorted|
      invariant 0 <= i <= |sorted|
      invariant forall j :: 0 <= j < i ==> box.validKey(sorted[j])
      invariant es == Envelopes(box, random, key, sorted)[..i]
    {
      if !box.validKey(sorted[i]) {
        assert sorted[i] in members;
        return None;
      }
      var (e, n, c) := box.seal(sorted[i], random(i), key);
      es := es + [KeyEnvelope(sorted[i], e, n, c)];
      i := i + 1;
    }
    assert es == Envelopes(box, random, key, sorted);
    assert forall m :: m in members ==> m in sorted;
    return Some(SignedRotation(epoch, rotator, box.sign(rotator, epoch, es), es));
  }

  lemma {:induction false} DedupKeepsMembers(s: seq<MemberId>)
    ensures forall m :: m in Dedup(s) <==> m in s
  {
    if |s| >= 2 {
      assert s == [s[0]] + s[1..];
      DedupKeepsMembers(s[1..]);
      if s[0] == s[1] {
        assert s[1..][0] == s[1];
      }
    }
  }

  lemma {:induction false} DedupOfSorted(s: seq<MemberId>)
    requires SortedBy(MemberLess, s)
    ensures Ascending(MemberLess, Dedup(s))
  {
    if |s| >= 2 {
      var tail := s[1..];
      assert forall i, j :: 0 <= i < j < |tail| ==> !MemberLess(tail[j], tail[i]);
      DedupOfSorted(tail);
      if s[0] != s[1] {
        var r := Dedup(tail);
        DedupKeepsMembers(tail);
        forall j | 0 <= j < |r| ensures s[0] < r[j] {
          assert r[j] in tail;
          var i :| 0 <= i < |tail| && tail[i] == r[j];
          assert !MemberLess(s[i + 1], s[0]) && !MemberLess(s[1], s[0]);
          assert i > 0 ==> !MemberLess(s[i + 1], s[1]);
        }
      }
    }
  }

  lemma RecipientsAreMembers(members: seq<MemberId>)
    ensures Ascending(MemberLess, Recipients(members))
    ensures forall m :: m in Recipients(members) <==> m in members
  {
    assert StrictWeak(MemberLess);
    SortSorts(MemberLess, members);
    DedupOfSorted(SortBy(MemberLess, members));
    DedupKeepsMembers(SortBy(MemberLess, members));
    assert forall m :: m in members <==> m in multiset(members);
    assert forall m :: m in SortBy(MemberLess, members) <==> m in multiset(SortBy(MemberLess, members));
  }

  ghost predicate SealedWith(box: Box, e: KeyEnvelope, random: nat, key: Key) {
    box.seal(e.recipient, random, key) == (e.ephemeral, e.nonce, e.ciphertext)
  }

  /** A rotation is built exactly when every recipient has a usable key. It is for the epoch, by the
      rotator and signed by it, with one envelope for each member, in ascending order of their keys and
      each sealed with randomness of its own. */
  lemma BuildDecides(box: Box, random: nat -> nat, rotator: MemberId, epoch: nat, key: Key, members: seq<MemberId>)
    ensures var r := Build(box, random, rotator, epoch, key, members);
      && (r.Some? <==> forall m :: m in members ==> box.validKey(m))
      && (r.Some? ==>
            && r.value.epoch == epoch && r.value.rotator == rotator
            && (Lawful(box) ==> box.verifies(r.value))
            && (forall m :: m in members <==> exists e :: e in r.value.envelopes && e.recipient == m)
            && (forall i :: 0 <= i < |r.value.envelopes| ==> SealedWith(box, r.value.envelopes[i], random(i), key))
            && (forall i, j :: 0 <= i < j < |r.value.envelopes| ==> r.value.envelopes[i].recipient < r.value.envelopes[j].recipient))
  {
    var r, sorted := Build(box, random, rotator, epoch, key, members), Recipients(members);
    RecipientsAreMembers(members);
    if r.Some? {
      var es := r.value.envelopes;
      assert forall i :: 0 <= i < |es| ==> es[i] == Envelope(box, random, key, sorted, i);
      forall i, j | 0 <= i < j < |es| ensures es[i].recipient < es[j].recipient {
        assert MemberLess(sorted[i], sorted[j]);
      }
      forall m | m in members ensures exists e :: e in es && e.recipient == m {
        assert m in sorted;
        var i :| 0 <= i < |sorted| && sorted[i] == m;
        assert es[i] in es;
      }
      forall e | e in es ensures e.recipient in members {
        var i :| 0 <= i < |es| && es[i] == e;
        assert sorted[i] in sorted;
      }
    }
  }

  /** Managers that rotate for the same set of members address the same recipients in the same
      order, however they list them. */
  lemma RecipientOrderIsCanonical(a: seq<MemberId>, b: seq<MemberId>)
    requires forall m :: m in a <==> m in b
    ensures Recipients(a) == Recipients(b)
  {
    RecipientsAreMembers(a);
    RecipientsAreMembers(b);
    AscendingUnique(MemberLess, Recipients(a), Recipients(b));
  }

  lemma {:induction false} FindByRecipient(es: seq<KeyEnvelope>, i: nat)
    requires i < |es| && forall j, k :: 0 <= j < k < |es| ==> es[j].recipient != es[k].recipient
    ensures FindEnvelope(es, es[i].recipient) == Some(es[i])
  {
    if i > 0 {
      FindByRecipient(es[1..], i - 1);
    }
  }

  /** A rotation opens to the new key for exactly the members it was built for, as long as the
      receiver lists the rotator as an owner. */
  lemma RotationOpensExactlyForRecipients(box: Box, random: nat -> nat, rotator: MemberId, epoch: nat, key: Key,
                                          recipients: seq<MemberId>, view: seq<(MemberId, AuthRole)>, me: MemberId)
    requires Lawful(box) && Build(box, random, rotator, epoch, key, recipients).Some?
    ensures var rot := Build(box, random, rotator, epoch, key, recipients).value;
      VerifyAndDecrypt(box, rot, view, me) ==
        if (rotator, Owner) !in view then NotAManager
        else if me in recipients then OkForUs(key)
        else NotForUs
  {
    var rot := Build(box, random, rotator, epoch, key, recipients).value;
    var sorted := Recipients(recipients);
    var es := rot.envelopes;
    RecipientsAreMembers(recipients);
    assert forall i :: 0 <= i < |es| ==> es[i] == Envelope(box, random, key, sorted, i);
    if me in recipients {
      assert me in sorted;
      var i :| 0 <= i < |sorted| && sorted[i] == me;
      assert es[i].recipient == me;
      FindByRecipient(es, i);
    } else {
      FindFirst(es, me);
      forall e | e in es ensures e.recipient != me {
        var i :| 0 <= i < |es| && es[i] == e;
        assert sorted[i] in sorted;
      }
    }
  }
}
