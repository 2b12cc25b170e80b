/** Installing rotations that arrive out of order (src/daemon.rs). The receiver's verification, with
    its own identity and membership log, is the parameter `verify`. */
module RotationBuffer {
  import opened Results
  import opened Orders
  import opened KeyRing
  import opened Rotation

  const CAP := 64

  const EpochLess: (SignedRotation, SignedRotation) -> bool :=
    (a: SignedRotation, b: SignedRotation) => a.epoch < b.epoch

  type Verify = SignedRotation -> VerifyOutcome

  datatype Attempt = Applied | AlreadyThere | TooOld | Buffered

  function TryInstall(verify: Verify, ring: Ring, rot: SignedRotation): (r: (Ring, Result<Attempt, KeyError>))
    requires ring != []
    ensures ring <= r.0 && |r.0| <= |ring| + 1
    ensures r.1 != Ok(Applied) ==> r.0 == ring
  {
    match verify(rot)
    case OkForUs(key) =>
      var (next, outcome) := Install(ring, rot.epoch, key);
      (next,
       match outcome
       case Err(e) => Err(e)
       case Ok(Installed) => Ok(Applied)
       case Ok(Idempotent) => Ok(AlreadyThere)
       case Ok(Stale) => Ok(TooOld)
       case Ok(Gap(_, _)) => Ok(Buffered))
    case _ => (ring, Ok(AlreadyThere))
  }

  function Push(buffer: seq<SignedRotation>, rot: SignedRotation): seq<SignedRotation> {
    if exists r | r in buffer :: r.epoch == rot.epoch then buffer
    else if |buffer| >= CAP then SortBy(EpochLess, buffer)[1..] + [rot]
    else buffer + [rot]
  }

  lemma SortLength(buffer: seq<SignedRotation>)
    ensures |SortBy(EpochLess, buffer)| == |buffer|
  {
    assert |multiset(SortBy(EpochLess, buffer))| == |multiset(buffer)|;
  }

  lemma PrefixTransitive(a: Ring, b: Ring, c: Ring)
    requires a <= b <= c
    ensures a <= c
  {
  }

  function Drain(verify: Verify, ring: Ring, buffer: seq<SignedRotation>): (r: (Ring, seq<SignedRotation>))
    requires ring != []
    ensures ring <= r.0
    decreases |buffer|
  {
    if buffer == [] then (ring, buffer)
    else
      SortLength(buffer);
      var sorted := SortBy(EpochLess, buffer);
      var (next, attempt) := TryInstall(verify, ring, sorted[0]);
      if attempt == Ok(Buffered) then (next, Push(sorted[1..], sorted[0]))
      else
        var r := Drain(verify, next, sorted[1..]);
        PrefixTransitive(ring, next, r.0);
        r
  }

  /** The third component is the error that the handler reports, if any. */
  function Receive(verify: Verify, ring: Ring, buffer: seq<SignedRotation>, rot: SignedRotation)
    : (r: (Ring, seq<SignedRotation>, Option<KeyError>))
    requires ring != []
    ensures ring <= r.0
  {
    match TryInstall(verify, ring, rot)
    case (next, Ok(Applied)) =>
      var (last, rest) := Drain(verify, next, buffer);
      (last, rest, None)
    case (_, Ok(Buffered)) => (ring, Push(buffer, rot), None)
    case (_, Ok(_)) => (ring, buffer, None)
    case (_, Err(e)) => (ring, buffer, Some(e))
  }

  /** The state a share task keeps for rotations. */
  class RotationReceiver {
    const store: KeyStore
    var buffer: seq<SignedRotation>

    ghost predicate Valid()
      reads this, store
    {
      store.ring != [] && store.file == Some(Flatten(store.ring))
    }

    constructor (store: KeyStore)
      requires store.ring != [] && store.file == Some(Flatten(store.ring))
      ensures Valid() && this.store == store && buffer == []
    {
      this.store := store;
      buffer := [];
    }

    method Attempt(verify: Verify, rot: SignedRotation, other: Key) returns (r: Result<Attempt, KeyError>)
      requires Valid()
      modifies store
      ensures Valid()
      ensures (store.ring, r) == TryInstall(verify, old(store.ring), rot)
    {
      var outcome := verify(rot);
      if !outcome.OkForUs? {
        return Ok(AlreadyThere);
      }
      var installed := store.InstallEpochKey(rot.epoch, outcome.key, other);
      match installed
      case Err(e) => return Err(e);
      case Ok(Installed) => return Ok(Applied);
      case Ok(Idempotent) => return Ok(AlreadyThere);
      case Ok(Stale) => return Ok(TooOld);
      case Ok(Gap(_, _)) => return Ok(Buffered);
    }

    method BufferPush(rot: SignedRotation)
      modifies this`buffer
      ensures buffer == Push(old(buffer), rot)
    {
      if exists r | r in buffer :: r.epoch == rot.epoch {
        return;
      }
      if |buffer| >= CAP {
        SortLength(buffer);
        buffer := SortBy(EpochLess, buffer);
        buffer := buffer[1..];
      }
      buffer := buffer + [rot];
    }

    method DrainBuffer(verify: Verify, other: Key)
      requires Valid()
      modifies this`buffer, store
      ensures Valid()
      ensures (store.ring, buffer) == Drain(verify, old(store.ring), old(buffer))
    {
      while buffer != []
        invariant Valid()
        invariant Drain(verify, store.ring, buffer) == Drain(verify, old(store.ring), old(buffer))
        decreases |buffer|
      {
        SortLength(buffer);
        var sorted := SortBy(EpochLess, buffer);
        var candidate := sorted[0];
        buffer := sorted[1..];
        var attempt := Attempt(verify, candidate, other);
        if attempt == Ok(Buffered) {
          BufferPush(candidate);
          return;
        }
      }
    }

    method OnRotation(verify: Verify, rot: SignedRotation, other: Key) returns (error: Option<KeyError>)
      requires Valid()
      modifies this`buffer, store
      ensures Valid()
      ensures (store.ring, buffer, error) == Receive(verify, old(store.ring), old(buffer), rot)
    {
      var attempt := Attempt(verify, rot, other);
      match attempt
      case Err(e) => return Some(e);
      case Ok(Applied) =>
        DrainBuffer(verify, other);
        return None;
      case Ok(Buffered) =>
        BufferPush(rot);
        return None;
      case Ok(_) => return None;
    }
  }

  /** One attempt, by what verification says and by the epoch: what does not open counts as there already,
      so does the current epoch under its own key; an earlier epoch is too old; a later one than the
      next is to be buffered. */
  lemma AttemptDecides(verify: Verify, ring: Ring, rot: SignedRotation)
    requires ring != []
    ensures var (next, attempt) := TryInstall(verify, ring, rot);
      match verify(rot)
      case OkForUs(key) =>
        && (attempt == Ok(Applied) <==> rot.epoch == |ring| + 1)
        && (attempt == Ok(AlreadyThere) <==> rot.epoch == |ring| && ring[|ring| - 1] == key)
        && (attempt == Err(EpochConflict) <==> rot.epoch == |ring| && ring[|ring| - 1] != key)
        && (attempt == Ok(TooOld) <==> rot.epoch < |ring|)
        && (attempt == Ok(Buffered) <==> rot.epoch > |ring| + 1)
        && next == if rot.epoch == |ring| + 1 then ring + [key] else ring
      case _ => next == ring && attempt == Ok(AlreadyThere)
  {
    InstallDecides(ring, rot.epoch, if verify(rot).OkForUs? then verify(rot).key else ring[0]);
  }

  /** What one arrival must lead to, decided by whether the rotation opens and by its epoch. An epoch we
      have changes nothing, and is an error when it is the current one under another key; the next
      epoch is installed; a later one is buffered. */
  lemma ReceiveDecides(verify: Verify, ring: Ring, buffer: seq<SignedRotation>, rot: SignedRotation)
    requires ring != []
    ensures var (next, rest, error) := Receive(verify, ring, buffer, rot);
      && (error.Some? <==> verify(rot).OkForUs? && rot.epoch == |ring| && verify(rot).key != ring[|ring| - 1])
      && (error.Some? ==> error == Some(EpochConflict))
      && (!verify(rot).OkForUs? || rot.epoch <= |ring| ==> next == ring && rest == buffer)
      && (verify(rot).OkForUs? && rot.epoch > |ring| + 1 ==> next == ring && rest == Push(buffer, rot))
      && (verify(rot).OkForUs? && rot.epoch == |ring| + 1 ==> ring + [verify(rot).key] <= next)
  {
    AttemptDecides(verify, ring, rot);
  }

  /** Once an epoch is installed as the last one, a second rotation that gives it another key is refused
      with the conflict error, and neither the ring nor the buffer changes. */
  lemma SecondKeyIsRefused(verify: Verify, ring: Ring, buffer: seq<SignedRotation>, first: SignedRotation, second: SignedRotation)
    requires ring != [] && verify(first).OkForUs? && verify(second).OkForUs?
    requires first.epoch == second.epoch == |ring| + 1 && verify(first).key != verify(second).key
    requires |Receive(verify, ring, buffer, first).0| == |ring| + 1
    ensures var (next, rest, _) := Receive(verify, ring, buffer, first);
      && next == ring + [verify(first).key]
      && Receive(verify, next, rest, second) == (next, rest, Some(EpochConflict))
  {
    ReceiveDecides(verify, ring, buffer, first);
    var (next, rest, _) := Receive(verify, ring, buffer, first);
    ReceiveDecides(verify, next, rest, second);
  }

  // ---- The buffer stays bounded and keeps one rotation per epoch ----

  ghost function Epochs(buffer: seq<SignedRotation>): set<nat> {
    set r | r in buffer :: r.epoch
  }

  /** As many epochs as entries: no epoch twice. */
  ghost predicate BufferOk(buffer: seq<SignedRotation>) {
    |Epochs(buffer)| == |buffer| <= CAP
  }

  lemma EpochsOfAppend(a: seq<SignedRotation>, b: seq<SignedRotation>)
    ensures Epochs(a + b) == Epochs(a) + Epochs(b)
  {
    forall e | e in Epochs(a) + Epochs(b) ensures e in Epochs(a + b) {
      var r :| (r in a || r in b) && r.epoch == e;
      assert r in a + b;
    }
  }

  lemma {:induction false} EpochsAtMost(buffer: seq<SignedRotation>)
    ensures |Epochs(buffer)| <= |buffer|
  {
    if buffer != [] {
      assert buffer == [buffer[0]] + buffer[1..];
      EpochsOfAppend([buffer[0]], buffer[1..]);
      assert Epochs([buffer[0]]) == {buffer[0].epoch};
      EpochsAtMost(buffer[1..]);
    }
  }

  lemma SortKeepsEntries(buffer: seq<SignedRotation>)
    ensures |SortBy(EpochLess, buffer)| == |buffer|
    ensures forall r :: r in SortBy(EpochLess, buffer) <==> r in buffer
    ensures Epochs(SortBy(EpochLess, buffer)) == Epochs(buffer)
  {
    SortLength(buffer);
    forall r ensures r in SortBy(EpochLess, buffer) <==> r in buffer {
      assert r in multiset(SortBy(EpochLess, buffer)) <==> r in multiset(buffer);
    }
  }

  lemma LeastFirst(buffer: seq<SignedRotation>)
    requires buffer != []
    ensures SortBy(EpochLess, buffer) != []
    ensures forall r :: r in buffer ==> SortBy(EpochLess, buffer)[0].epoch <= r.epoch
  {
    var s := SortBy(EpochLess, buffer);
    SortKeepsEntries(buffer);
    assert StrictWeak(EpochLess);
    SortSorts(EpochLess, buffer);
    forall r | r in buffer ensures s[0].epoch <= r.epoch {
      var i :| 0 <= i < |s| && s[i] == r;
      assert i > 0 ==> !EpochLess(s[i], s[0]);
    }
  }

  lemma TailOfDistinct(s: seq<SignedRotation>)
    requires |Epochs(s)| == |s| && s != []
    ensures Epochs(s[1..]) == Epochs(s) - {s[0].epoch} && |Epochs(s[1..])| == |s[1..]|
  {
    assert s == [s[0]] + s[1..];
    EpochsOfAppend([s[0]], s[1..]);
    assert Epochs([s[0]]) == {s[0].epoch};
    EpochsAtMost(s[1..]);
  }

  /** The sorted buffer: same entries, least epoch first, nothing with that epoch after it. */
  lemma SortedBuffer(buffer: seq<SignedRotation>)
    requires |Epochs(buffer)| == |buffer| && buffer != []
    ensures var s := SortBy(EpochLess, buffer);
      && |s| == |buffer|
      && (forall r :: r in s <==> r in buffer)
      && (forall r :: r in buffer ==> s[0].epoch <= r.epoch)
      && Epochs(s[1..]) == Epochs(buffer) - {s[0].epoch}
      && |Epochs(s[1..])| == |s[1..]|
  {
    SortKeepsEntries(buffer);
    LeastFirst(buffer);
    TailOfDistinct(SortBy(EpochLess, buffer));
  }

  lemma AppendFresh(buffer: seq<SignedRotation>, rot: SignedRotation)
    requires |Epochs(buffer)| == |buffer| && rot.epoch !in Epochs(buffer)
    ensures Epochs(buffer + [rot]) == Epochs(buffer) + {rot.epoch}
    ensures |Epochs(buffer + [rot])| == |buffer| + 1
  {
    EpochsOfAppend(buffer, [rot]);
    assert Epochs([rot]) == {rot.epoch};
  }

  /** Pushing keeps the buffer bounded and free of duplicates; below the cap nothing is lost, at the
      cap exactly the least epoch is. */
  lemma PushIsBounded(buffer: seq<SignedRotation>, rot: SignedRotation)
    requires BufferOk(buffer)
    ensures BufferOk(Push(buffer, rot)) && |Push(buffer, rot)| <= 64
    ensures forall r :: r in Push(buffer, rot) ==> r in buffer || r == rot
    ensures |buffer| < CAP || rot.epoch in Epochs(buffer) ==>
      Epochs(Push(buffer, rot)) == Epochs(buffer) + {rot.epoch}
    ensures |buffer| == CAP && rot.epoch !in Epochs(buffer) ==>
      exists least :: least in Epochs(buffer) && (forall e :: e in Epochs(buffer) ==> least <= e)
                      && Epochs(Push(buffer, rot)) == Epochs(buffer) - {least} + {rot.epoch}
  {
    if rot.epoch !in Epochs(buffer) {
      if |buffer| < CAP {
        AppendFresh(buffer, rot);
      } else {
        SortedBuffer(buffer);
        var s := SortBy(EpochLess, buffer);
        AppendFresh(s[1..], rot);
        assert s[0] in s;
        assert s[0].epoch in Epochs(buffer);
      }
    }
  }

  /** A rotation for an epoch that is buffered is not taken, nor does it replace the one there; below the
      cap a new one goes to the end. */
  lemma PushDecides(buffer: seq<SignedRotation>, rot: SignedRotation)
    ensures rot.epoch in Epochs(buffer) ==> Push(buffer, rot) == buffer
    ensures |buffer| < 64 && rot.epoch !in Epochs(buffer) ==> Push(buffer, rot) == buffer + [rot]
  {
    if |buffer| < CAP && rot.epoch !in Epochs(buffer) {
      PushFresh(buffer, rot);
    }
  }

  /** At some ring between `from` and `to` the rotation no longer left a gap. */
  ghost predicate Tried(verify: Verify, from: Ring, to: Ring, rot: SignedRotation) {
    exists mid: Ring :: mid != [] && from <= mid <= to && TryInstall(verify, mid, rot).1 != Ok(Buffered)
  }

  lemma TriedLater(verify: Verify, from: Ring, next: Ring, to: Ring, rot: SignedRotation)
    requires from <= next && Tried(verify, next, to, rot)
    ensures Tried(verify, from, to, rot)
  {
    var mid: Ring :| mid != [] && next <= mid <= to && TryInstall(verify, mid, rot).1 != Ok(Buffered);
    PrefixTransitive(from, next, mid);
  }

  lemma TriedNow(verify: Verify, ring: Ring, to: Ring, rot: SignedRotation)
    requires ring != [] && ring <= to && TryInstall(verify, ring, rot).1 != Ok(Buffered)
    ensures Tried(verify, ring, to, rot)
  {
  }

  lemma PutBack(buffer: seq<SignedRotation>)
    requires BufferOk(buffer) && buffer != []
    ensures var s := SortBy(EpochLess, buffer);
      s != [] && Push(s[1..], s[0]) == s[1..] + [s[0]] && BufferOk(Push(s[1..], s[0]))
      && forall r :: r in Push(s[1..], s[0]) <==> r in buffer
  {
    SortedBuffer(buffer);
    var s := SortBy(EpochLess, buffer);
    PushFresh(s[1..], s[0]);
    AppendFresh(s[1..], s[0]);
    assert s == [s[0]] + s[1..];
  }

  lemma PushFresh(buffer: seq<SignedRotation>, rot: SignedRotation)
    requires |buffer| < CAP && rot.epoch !in Epochs(buffer)
    ensures Push(buffer, rot) == buffer + [rot]
  {
  }

  /** Draining keeps the buffer bounded, drops only what no longer leaves a gap, and never drops the
      candidate it puts back. */
  lemma {:induction false} DrainIsBounded(verify: Verify, ring: Ring, buffer: seq<SignedRotation>)
    requires ring != [] && BufferOk(buffer)
    ensures var (last, rest) := Drain(verify, ring, buffer);
      && BufferOk(rest) && (forall r :: r in rest ==> r in buffer)
      && forall r :: r in buffer && r !in rest ==> Tried(verify, ring, last, r)
    decreases |buffer|
  {
    if buffer != [] {
      SortedBuffer(buffer);
      var s := SortBy(EpochLess, buffer);
      var (next, attempt) := TryInstall(verify, ring, s[0]);
      var (last, rest) := Drain(verify, ring, buffer);
      if attempt == Ok(Buffered) {
        PutBack(buffer);
      } else {
        assert s == [s[0]] + s[1..];
        DrainIsBounded(verify, next, s[1..]);
        forall r | r in buffer && r !in rest ensures Tried(verify, ring, last, r) {
          if r == s[0] {
            TriedNow(verify, ring, last, r);
          } else {
            assert r in s[1..];
            TriedLater(verify, ring, next, last, r);
          }
        }
      }
    }
  }

  /** An entry for the epoch after the ring would open and install. */
  ghost predicate Fits(verify: Verify, ring: Ring, rot: SignedRotation) {
    verify(rot).OkForUs? && rot.epoch == |ring| + 1
  }

  lemma TriedDoesNotFit(verify: Verify, ring: Ring, rot: SignedRotation, last: Ring)
    requires ring != [] && TryInstall(verify, ring, rot).0 <= last
    ensures if TryInstall(verify, ring, rot).1 == Ok(Buffered) then rot.epoch > |ring| + 1 else !Fits(verify, last, rot)
  {
  }

  lemma OneOfTheRest(s: seq<SignedRotation>, r: SignedRotation)
    requires s != [] && r in s
    ensures r == s[0] || r in s[1..]
  {
    assert s == [s[0]] + s[1..];
  }

  /** Draining goes as far as the buffer allows, whatever else the buffer holds: it steps over entries
      that do not open and over conflicts, and stops only where no entry for the next epoch opens. */
  lemma {:induction false} DrainIsMaximal(verify: Verify, ring: Ring, buffer: seq<SignedRotation>)
    requires ring != [] && BufferOk(buffer)
    ensures forall r :: r in buffer ==> !Fits(verify, Drain(verify, ring, buffer).0, r)
    decreases |buffer|
  {
    if buffer != [] {
      SortedBuffer(buffer);
      var s := SortBy(EpochLess, buffer);
      var (next, attempt) := TryInstall(verify, ring, s[0]);
      var last := Drain(verify, ring, buffer).0;
      TriedDoesNotFit(verify, ring, s[0], last);
      if attempt != Ok(Buffered) {
        DrainIsMaximal(verify, next, s[1..]);
        forall r | r in buffer ensures !Fits(verify, last, r) {
          OneOfTheRest(s, r);
        }
      }
    }
  }

  /** Whatever arrives, genuine or not: rings only grow and the buffer stays bounded. */
  lemma ReceiveIsBounded(verify: Verify, ring: Ring, buffer: seq<SignedRotation>, rot: SignedRotation)
    requires ring != [] && BufferOk(buffer)
    ensures BufferOk(Receive(verify, ring, buffer, rot).1)
  {
    var (next, attempt) := TryInstall(verify, ring, rot);
    if attempt == Ok(Applied) {
      DrainIsBounded(verify, next, buffer);
    } else if attempt == Ok(Buffered) {
      PushIsBounded(buffer, rot);
    }
  }
}
