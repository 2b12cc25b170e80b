/** What a receiver ends up with: the reorder buffer's capacity, and the rebroadcast queue. */
module RotationDelivery {
  import opened Results
  import opened Orders
  import opened KeyRing
  import opened Rotation
  import opened RotationBuffer

  /** `rot` opens for us to the key that the rotator's ring `truth` holds at its epoch. */
  ghost predicate Genuine(verify: Verify, truth: Ring, rot: SignedRotation) {
    && verify(rot).OkForUs?
    && 1 <= rot.epoch <= |truth|
    && verify(rot).key == truth[rot.epoch - 1]
  }

  ghost predicate AllGenuine(verify: Verify, truth: Ring, rots: seq<SignedRotation>) {
    forall r :: r in rots ==> Genuine(verify, truth, r)
  }

  function DeliverAll(verify: Verify, ring: Ring, buffer: seq<SignedRotation>, rots: seq<SignedRotation>)
    : (r: (Ring, seq<SignedRotation>))
    requires ring != []
    ensures ring <= r.0
  {
    if rots == [] then (ring, buffer)
    else
      var (r, b) := DeliverAll(verify, ring, buffer, rots[..|rots| - 1]);
      var (r', b', _) := Receive(verify, r, b, rots[|rots| - 1]);
      (r', b')
  }

  lemma DeliverLast(verify: Verify, ring: Ring, buffer: seq<SignedRotation>, before: seq<SignedRotation>, last: SignedRotation)
    requires ring != []
    ensures var (r, b) := DeliverAll(verify, ring, buffer, before);
      var (r', b', _) := Receive(verify, r, b, last);
      DeliverAll(verify, ring, buffer, before + [last]) == (r', b')
  {
    assert (before + [last])[..|before|] == before;
  }

  /** Installing a genuine rotation into a prefix of the rotator's ring never conflicts. */
  lemma GenuineInstalls(verify: Verify, truth: Ring, ring: Ring, rot: SignedRotation)
    requires ring != [] && ring <= truth && Genuine(verify, truth, rot)
    ensures var (next, attempt) := TryInstall(verify, ring, rot);
      && next <= truth
      && (rot.epoch <= |ring| ==> next == ring && (attempt == Ok(AlreadyThere) || attempt == Ok(TooOld)))
      && (rot.epoch == |ring| + 1 ==> attempt == Ok(Applied) && next == truth[..rot.epoch])
      && (rot.epoch > |ring| + 1 ==> attempt == Ok(Buffered) && next == ring)
  {
    if rot.epoch == |ring| + 1 {
      assert truth[..rot.epoch] == ring + [truth[rot.epoch - 1]];
    }
  }

  ghost predicate Above(epochs: set<nat>, n: nat) {
    forall e :: e in epochs ==> e > n
  }

  /** The epochs of `epochs` that a ring of length `n` still lacks. */
  ghost function Missing(epochs: set<nat>, n: nat): set<nat> {
    set e | e in epochs && e > n
  }

  /** Every consecutive epoch of `buffer` went into `last`, what is old went away, all the rest is
      kept in `rest`, and there is a gap before its least entry. */
  ghost predicate Drained(verify: Verify, truth: Ring, ring: Ring, buffer: seq<SignedRotation>, last: Ring, rest: seq<SignedRotation>) {
    && ring <= last <= truth && BufferOk(rest) && AllGenuine(verify, truth, rest)
    && Epochs(rest) == Missing(Epochs(buffer), |last|)
    && Above(Epochs(rest), |last| + 1)
    && forall e :: |ring| < e <= |last| ==> e in Epochs(buffer)
  }

  lemma DrainStops(verify: Verify, truth: Ring, ring: Ring, buffer: seq<SignedRotation>)
    requires ring <= truth && BufferOk(buffer) && AllGenuine(verify, truth, buffer) && buffer != []
    requires SortBy(EpochLess, buffer) != [] && SortBy(EpochLess, buffer)[0].epoch > |ring| + 1
    ensures var s := SortBy(EpochLess, buffer);
      Drained(verify, truth, ring, buffer, ring, Push(s[1..], s[0]))
  {
    var s := SortBy(EpochLess, buffer);
    PutBack(buffer);
    SameEpochs(Push(s[1..], s[0]), buffer);
    assert forall e :: e in Epochs(buffer) ==> e >= s[0].epoch by {
      LeastFirst(buffer);
    }
    MissingAll(Epochs(buffer), |ring|, s[0].epoch);
  }

  lemma SameEpochs(a: seq<SignedRotation>, b: seq<SignedRotation>)
    requires forall r :: r in a <==> r in b
    ensures Epochs(a) == Epochs(b)
  {
  }

  lemma MissingAll(epochs: set<nat>, n: nat, least: nat)
    requires least > n + 1 && forall e :: e in epochs ==> e >= least
    ensures Missing(epochs, n) == epochs && Above(epochs, n + 1)
  {
  }

  lemma DrainContinues(verify: Verify, truth: Ring, ring: Ring, buffer: seq<SignedRotation>, least: nat, next: Ring,
                       tail: seq<SignedRotation>, last: Ring, rest: seq<SignedRotation>)
    requires Drained(verify, truth, next, tail, last, rest)
    requires ring <= next && least in Epochs(buffer) && Epochs(tail) == Epochs(buffer) - {least}
    requires least <= |next| <= |ring| + 1 && (|next| == |ring| + 1 ==> least == |next|)
    ensures Drained(verify, truth, ring, buffer, last, rest)
  {
    assert Missing(Epochs(buffer), |last|) == Missing(Epochs(tail), |last|);
    forall e: nat | |ring| < e <= |last| ensures e in Epochs(buffer) {
      if e > |next| {
        assert e in Epochs(tail);
      }
    }
  }

  /** Draining genuine entries. */
  lemma {:induction false} DrainInstalls(verify: Verify, truth: Ring, ring: Ring, buffer: seq<SignedRotation>)
    requires ring != [] && ring <= truth && BufferOk(buffer) && AllGenuine(verify, truth, buffer)
    ensures var (last, rest) := Drain(verify, ring, buffer);
      Drained(verify, truth, ring, buffer, last, rest)
    decreases |buffer|
  {
    if buffer != [] {
      SortedBuffer(buffer);
      var s := SortBy(EpochLess, buffer);
      assert s[0] in s && s[0].epoch in Epochs(buffer);
      assert AllGenuine(verify, truth, s[1..]) by {
        assert forall r :: r in s[1..] ==> r in s;
      }
      GenuineInstalls(verify, truth, ring, s[0]);
      if s[0].epoch > |ring| + 1 {
        DrainStops(verify, truth, ring, buffer);
      } else {
        var next := TryInstall(verify, ring, s[0]).0;
        DrainInstalls(verify, truth, next, s[1..]);
        var (last, rest) := Drain(verify, next, s[1..]);
        DrainContinues(verify, truth, ring, buffer, s[0].epoch, next, s[1..], last, rest);
      }
    } else {
      assert Epochs(buffer) == {};
    }
  }

  /** The receiver has seen the epochs `seen`, starting from a ring of length `n` and an empty
      buffer, and nothing was evicted: its buffer holds exactly what is seen and not installed. */
  ghost predicate Tracks(verify: Verify, truth: Ring, n: nat, seen: set<nat>, ring: Ring, buffer: seq<SignedRotation>) {
    && 1 <= n <= |ring| && ring <= truth
    && BufferOk(buffer) && AllGenuine(verify, truth, buffer)
    && Epochs(buffer) == Missing(seen, |ring|)
    && Above(Epochs(buffer), |ring| + 1)
    && forall e :: n < e <= |ring| ==> e in seen
  }

  lemma DrainedTracks(verify: Verify, truth: Ring, n: nat, seen: set<nat>, ring: Ring, buffer: seq<SignedRotation>, next: Ring, last: Ring, rest: seq<SignedRotation>)
    requires Tracks(verify, truth, n, seen, ring, buffer) && ring <= next && |next| == |ring| + 1
    requires Drained(verify, truth, next, buffer, last, rest)
    ensures Tracks(verify, truth, n, seen + {|next|}, last, rest)
  {
    assert Missing(Missing(seen, |ring|), |last|) == Missing(seen + {|next|}, |last|);
    forall e | n < e <= |last| ensures e in seen + {|next|} {
      if e > |next| {
        assert e in Missing(seen, |ring|);
      }
    }
  }

  lemma PushedTracks(verify: Verify, truth: Ring, n: nat, seen: set<nat>, ring: Ring, buffer: seq<SignedRotation>, rot: SignedRotation)
    requires Tracks(verify, truth, n, seen, ring, buffer) && Genuine(verify, truth, rot)
    requires |buffer| < CAP || rot.epoch in Epochs(buffer)
    requires rot.epoch > |ring| + 1
    ensures Tracks(verify, truth, n, seen + {rot.epoch}, ring, Push(buffer, rot))
  {
    PushIsBounded(buffer, rot);
    assert Missing(seen + {rot.epoch}, |ring|) == Missing(seen, |ring|) + {rot.epoch};
  }

  lemma ReceiveTracks(verify: Verify, truth: Ring, n: nat, seen: set<nat>, ring: Ring, buffer: seq<SignedRotation>, rot: SignedRotation)
    requires Tracks(verify, truth, n, seen, ring, buffer) && Genuine(verify, truth, rot)
    requires |buffer| < CAP || rot.epoch in Epochs(buffer) || rot.epoch <= |ring| + 1
    ensures var (next, rest, error) := Receive(verify, ring, buffer, rot);
      Tracks(verify, truth, n, seen + {rot.epoch}, next, rest) && error == None
  {
    GenuineInstalls(verify, truth, ring, rot);
    if rot.epoch == |ring| + 1 {
      var next := truth[..rot.epoch];
      DrainInstalls(verify, truth, next, buffer);
      var (last, rest) := Drain(verify, next, buffer);
      DrainedTracks(verify, truth, n, seen, ring, buffer, next, last, rest);
    } else if rot.epoch > |ring| {
      PushedTracks(verify, truth, n, seen, ring, buffer, rot);
    } else {
      assert Missing(seen + {rot.epoch}, |ring|) == Missing(seen, |ring|);
    }
  }

  // ---- Any arrival order of up to CAP + 1 missing epochs ----

  lemma {:induction false} RangeSize(lo: nat, size: nat) returns (range: set<nat>)
    ensures (forall e: nat :: e in range <==> lo <= e < lo + size) && |range| == size
  {
    if size == 0 {
      range := {};
    } else {
      var smaller := RangeSize(lo, size - 1);
      range := smaller + {lo + size - 1};
    }
  }

  /** While only epochs n+1 .. n+k with k <= CAP + 1 arrive, a push never finds the buffer full. */
  lemma RoomForOneMore(n: nat, k: nat, ring: Ring, buffer: seq<SignedRotation>, rot: SignedRotation)
    requires k <= CAP + 1 && n <= |ring| && BufferOk(buffer)
    requires Above(Epochs(buffer), |ring| + 1) && rot.epoch > |ring| + 1 && rot.epoch !in Epochs(buffer)
    requires rot.epoch <= n + k && forall e :: e in Epochs(buffer) ==> e <= n + k
    ensures |buffer| < CAP
  {
    var range := RangeSize(n + 2, k - 1);
    assert Epochs(buffer) + {rot.epoch} <= range;
    SubsetSize(Epochs(buffer) + {rot.epoch}, range);
  }

  lemma {:induction false} SubsetSize(a: set<nat>, b: set<nat>)
    requires a <= b
    ensures |a| <= |b|
  {
    if a != {} {
      var x :| x in a;
      SubsetSize(a - {x}, b - {x});
    }
  }

  ghost predicate Within(rots: seq<SignedRotation>, n: nat, k: nat) {
    forall r :: r in rots ==> n < r.epoch <= n + k
  }

  lemma {:induction false} ArrivalsTrack(verify: Verify, truth: Ring, n: nat, k: nat, rots: seq<SignedRotation>)
    requires 1 <= n <= |truth| && k <= CAP + 1 && AllGenuine(verify, truth, rots) && Within(rots, n, k)
    ensures var (ring, buffer) := DeliverAll(verify, truth[..n], [], rots);
      Tracks(verify, truth, n, Epochs(rots), ring, buffer)
  {
    if rots != [] {
      var before, last := rots[..|rots| - 1], rots[|rots| - 1];
      assert rots == before + [last];
      ArrivalsTrack(verify, truth, n, k, before);
      var (ring, buffer) := DeliverAll(verify, truth[..n], [], before);
      if last.epoch > |ring| + 1 && last.epoch !in Epochs(buffer) {
        forall e | e in Epochs(buffer) ensures e <= n + k {
          assert e in Epochs(before);
        }
        RoomForOneMore(n, k, ring, buffer, last);
      }
      ReceiveTracks(verify, truth, n, Epochs(before), ring, buffer, last);
      EpochsOfAppend(before, [last]);
      assert Epochs([last]) == {last.epoch};
    }
  }

  /** Any arrival order, with any repeats, of all of n+1 .. n+k, for k up to CAP + 1, ends with the
      same fully extended ring and an empty buffer. */
  lemma ArrivalsComplete(verify: Verify, truth: Ring, n: nat, k: nat, rots: seq<SignedRotation>)
    requires 1 <= n && n + k <= |truth| && k <= CAP + 1 && AllGenuine(verify, truth, rots) && Within(rots, n, k)
    requires forall e :: n < e <= n + k ==> e in Epochs(rots)
    ensures DeliverAll(verify, truth[..n], [], rots) == (truth[..n + k], [])
  {
    ArrivalsTrack(verify, truth, n, k, rots);
    var (ring, buffer) := DeliverAll(verify, truth[..n], [], rots);
    forall e ensures e in Epochs(rots) <==> n < e <= n + k {
    }
    TrackedToTheEnd(verify, truth, n, k, Epochs(rots), ring, buffer);
  }

  lemma TrackedToTheEnd(verify: Verify, truth: Ring, n: nat, k: nat, seen: set<nat>, ring: Ring, buffer: seq<SignedRotation>)
    requires Tracks(verify, truth, n, seen, ring, buffer) && n + k <= |truth|
    requires forall e :: e in seen <==> n < e <= n + k
    ensures ring == truth[..n + k] && buffer == []
  {
    assert |ring| + 1 in Missing(seen, |ring|) <==> |ring| + 1 in seen;
    assert |ring| > n ==> |ring| in seen;
    assert |ring| == n + k;
    assert Epochs(buffer) == {};
  }

  // ---- One epoch more than that can get lost ----

  /** `rots[i]` is a genuine rotation for epoch `n + 1 + i`. */
  ghost predicate Run(verify: Verify, truth: Ring, n: nat, rots: seq<SignedRotation>) {
    forall i :: 0 <= i < |rots| ==> Genuine(verify, truth, rots[i]) && rots[i].epoch == n + 1 + i
  }

  lemma {:induction false} SortOfSorted(s: seq<SignedRotation>)
    requires forall i, j :: 0 <= i < j < |s| ==> s[i].epoch < s[j].epoch
    ensures SortBy(EpochLess, s) == s
  {
    if s != [] {
      SortOfSorted(s[1..]);
    }
  }

  lemma PushToSorted(buffer: seq<SignedRotation>, rot: SignedRotation)
    requires forall i, j :: 0 <= i < j < |buffer| ==> buffer[i].epoch < buffer[j].epoch
    requires forall i :: 0 <= i < |buffer| ==> buffer[i].epoch < rot.epoch
    ensures Push(buffer, rot) == (if |buffer| >= CAP then buffer[1..] else buffer) + [rot]
  {
    SortOfSorted(buffer);
  }

  lemma SliceGrows<T>(s: seq<T>, from: nat, j: nat)
    requires from <= j < |s|
    ensures s[from..j] + [s[j]] == s[from..j + 1]
    ensures from < j ==> s[from..j][1..] + [s[j]] == s[from + 1..j + 1]
  {
  }

  lemma PushSlides(verify: Verify, truth: Ring, n: nat, rots: seq<SignedRotation>, j: nat)
    requires Run(verify, truth, n, rots) && 1 <= j < |rots|
    ensures Push(Latest(rots, j), rots[j]) == Latest(rots, j + 1)
  {
    var from := if j - 1 <= CAP then 1 else j - CAP;
    var buffer := rots[from..j];
    forall i | 0 <= i < |buffer| ensures buffer[i].epoch == n + 1 + from + i {
      assert buffer[i] == rots[from + i];
    }
    PushToSorted(buffer, rots[j]);
    SliceGrows(rots, from, j);
  }

  lemma GapIsPushed(verify: Verify, truth: Ring, ring: Ring, buffer: seq<SignedRotation>, rot: SignedRotation)
    requires ring != [] && ring <= truth && Genuine(verify, truth, rot) && rot.epoch > |ring| + 1
    ensures Receive(verify, ring, buffer, rot) == (ring, Push(buffer, rot), None)
  {
    GenuineInstalls(verify, truth, ring, rot);
  }

  /** The latest CAP of rots[1..j]. */
  function Latest(rots: seq<SignedRotation>, j: nat): seq<SignedRotation>
    requires 1 <= j <= |rots|
  {
    rots[if j - 1 <= CAP then 1 else j - CAP..j]
  }

  /** Ascending arrivals that all leave a gap keep only the CAP latest. */
  lemma {:induction false} GapsKeepLatest(verify: Verify, truth: Ring, ring: Ring, rots: seq<SignedRotation>, j: nat)
    requires ring != [] && ring <= truth && Run(verify, truth, |ring|, rots) && 1 <= j <= |rots|
    ensures DeliverAll(verify, ring, [], rots[1..j]) == (ring, Latest(rots, j))
  {
    if j > 1 {
      var last := rots[j - 1];
      assert rots[1..j] == rots[1..j - 1] + [last];
      DeliverLast(verify, ring, [], rots[1..j - 1], last);
      GapsKeepLatest(verify, truth, ring, rots, j - 1);
      GapIsPushed(verify, truth, ring, Latest(rots, j - 1), last);
      PushSlides(verify, truth, |ring|, rots, j - 1);
    }
  }

  /** A buffer whose least epoch leaves a gap is not drained at all. */
  lemma GappedBufferStays(verify: Verify, truth: Ring, ring: Ring, buffer: seq<SignedRotation>)
    requires ring != [] && ring <= truth && buffer != []
    requires forall i, j :: 0 <= i < j < |buffer| ==> buffer[i].epoch < buffer[j].epoch
    requires Genuine(verify, truth, buffer[0]) && buffer[0].epoch > |ring| + 1
    ensures Drain(verify, ring, buffer).0 == ring
  {
    SortOfSorted(buffer);
    GenuineInstalls(verify, truth, ring, buffer[0]);
  }

  lemma LatestAscends(verify: Verify, truth: Ring, n: nat, rots: seq<SignedRotation>)
    requires Run(verify, truth, n, rots) && |rots| > CAP + 1
    ensures var buffer := Latest(rots, |rots|);
      && |buffer| == CAP && Genuine(verify, truth, buffer[0]) && buffer[0].epoch == n + 1 + |rots| - CAP
      && forall i, j :: 0 <= i < j < |buffer| ==> buffer[i].epoch < buffer[j].epoch
  {
    var buffer := Latest(rots, |rots|);
    forall i | 0 <= i < |buffer| ensures buffer[i] == rots[|rots| - CAP + i] {
    }
  }

  /** A rotation that fits is installed, and a buffer that still leaves a gap stays as it is. */
  lemma InstallThenStay(verify: Verify, truth: Ring, ring: Ring, end: Ring, buffer: seq<SignedRotation>, rot: SignedRotation)
    requires ring != [] && ring <= truth && Genuine(verify, truth, rot) && rot.epoch == |ring| + 1
    requires end == truth[..rot.epoch] && buffer != []
    requires forall i, j :: 0 <= i < j < |buffer| ==> buffer[i].epoch < buffer[j].epoch
    requires Genuine(verify, truth, buffer[0]) && buffer[0].epoch > rot.epoch + 1
    ensures Receive(verify, ring, buffer, rot).0 == end
  {
    GenuineInstalls(verify, truth, ring, rot);
    GappedBufferStays(verify, truth, end, buffer);
  }

  lemma LastReceive(verify: Verify, ring: Ring, before: seq<SignedRotation>, buffer: seq<SignedRotation>, last: SignedRotation, end: Ring)
    requires ring != [] && DeliverAll(verify, ring, [], before) == (ring, buffer)
    requires Receive(verify, ring, buffer, last).0 == end
    ensures DeliverAll(verify, ring, [], before + [last]).0 == end
  {
    DeliverLast(verify, ring, [], before, last);
  }

  /** With more than CAP + 1 epochs missing, the order n+2, ..., n+k, n+1 loses epoch n+2. */
  lemma LateFirstStalls(verify: Verify, truth: Ring, n: nat, rots: seq<SignedRotation>)
    requires 1 <= n < |truth| && Run(verify, truth, n, rots) && |rots| > CAP + 1
    ensures DeliverAll(verify, truth[..n], [], rots[1..] + [rots[0]]).0 == truth[..n + 1]
  {
    var k := |rots|;
    assert DeliverAll(verify, truth[..n], [], rots[1..]) == (truth[..n], Latest(rots, k)) by {
      assert rots[1..k] == rots[1..];
      GapsKeepLatest(verify, truth, truth[..n], rots, k);
    }
    assert Receive(verify, truth[..n], Latest(rots, k), rots[0]).0 == truth[..n + 1] by {
      LatestAscends(verify, truth, n, rots);
      InstallThenStay(verify, truth, truth[..n], truth[..n + 1], Latest(rots, k), rots[0]);
    }
    LastReceive(verify, truth[..n], rots[1..], Latest(rots, k), rots[0], truth[..n + 1]);
  }

  ghost predicate EveryOrderCompletes(verify: Verify, truth: Ring, n: nat, rots: seq<SignedRotation>)
    requires 1 <= n && n + |rots| <= |truth|
  {
    forall order: seq<SignedRotation> ::
      (forall r :: r in order <==> r in rots) ==>
        DeliverAll(verify, truth[..n], [], order) == (truth[..n + |rots|], [])
  }

  lemma SmallRunCompletes(verify: Verify, truth: Ring, n: nat, rots: seq<SignedRotation>, order: seq<SignedRotation>)
    requires 1 <= n && n + |rots| <= |truth| && Run(verify, truth, n, rots) && |rots| <= CAP + 1
    requires forall r :: r in order <==> r in rots
    ensures DeliverAll(verify, truth[..n], [], order) == (truth[..n + |rots|], [])
  {
    forall e | n < e <= n + |rots| ensures e in Epochs(order) {
      assert rots[e - n - 1] in rots;
    }
    ArrivalsComplete(verify, truth, n, |rots|, order);
  }

  lemma LargeRunStalls(verify: Verify, truth: Ring, n: nat, rots: seq<SignedRotation>)
    requires 1 <= n && n + |rots| <= |truth| && Run(verify, truth, n, rots) && |rots| > CAP + 1
    ensures !EveryOrderCompletes(verify, truth, n, rots)
  {
    LateFirstStalls(verify, truth, n, rots);
    var order := rots[1..] + [rots[0]];
    assert rots == [rots[0]] + rots[1..];
    assert forall r :: r in order <==> r in rots;
  }

  /** A run of missing epochs survives every arrival order exactly up to one more than the 64 that the
      buffer holds. */
  lemma ReorderCapacity(verify: Verify, truth: Ring, n: nat, rots: seq<SignedRotation>)
    requires 1 <= n && n + |rots| <= |truth| && Run(verify, truth, n, rots)
    ensures EveryOrderCompletes(verify, truth, n, rots) <==> |rots| <= 65
  {
    if |rots| <= CAP + 1 {
      forall order: seq<SignedRotation> | forall r :: r in order <==> r in rots
        ensures DeliverAll(verify, truth[..n], [], order) == (truth[..n + |rots|], [])
      {
        SmallRunCompletes(verify, truth, n, rots, order);
      }
    } else {
      LargeRunStalls(verify, truth, n, rots);
    }
  }

  // ---- Rebroadcast in published order ----

  ghost predicate Published(queue: seq<SignedRotation>) {
    Ascending(EpochLess, queue)
  }

  /** What any delivery of genuine rotations keeps, evictions included. */
  ghost predicate Follows(verify: Verify, truth: Ring, known: set<nat>, start: nat, ring: Ring, buffer: seq<SignedRotation>) {
    && ring != [] && start <= |ring| && ring <= truth
    && BufferOk(buffer) && AllGenuine(verify, truth, buffer)
    && Epochs(buffer) <= known
    && forall e :: start < e <= |ring| ==> e in known
  }

  lemma DrainedFollows(verify: Verify, truth: Ring, known: set<nat>, start: nat, ring: Ring, buffer: seq<SignedRotation>, next: Ring, last: Ring, rest: seq<SignedRotation>)
    requires Follows(verify, truth, known, start, ring, buffer) && ring <= next && |next| == |ring| + 1
    requires Drained(verify, truth, next, buffer, last, rest)
    ensures Follows(verify, truth, known + {|next|}, start, last, rest)
  {
    assert Missing(Epochs(buffer), |last|) <= Epochs(buffer);
  }

  lemma PushedFollows(verify: Verify, truth: Ring, known: set<nat>, start: nat, ring: Ring, buffer: seq<SignedRotation>, rot: SignedRotation)
    requires Follows(verify, truth, known, start, ring, buffer) && Genuine(verify, truth, rot)
    ensures Follows(verify, truth, known + {rot.epoch}, start, ring, Push(buffer, rot))
  {
    PushIsBounded(buffer, rot);
    forall e | e in Epochs(Push(buffer, rot)) ensures e in known + {rot.epoch} {
      var r :| r in Push(buffer, rot) && r.epoch == e;
      assert r in buffer ==> e in Epochs(buffer);
    }
  }

  lemma ReceiveFollows(verify: Verify, truth: Ring, known: set<nat>, start: nat, ring: Ring, buffer: seq<SignedRotation>, rot: SignedRotation)
    requires Follows(verify, truth, known, start, ring, buffer) && Genuine(verify, truth, rot)
    ensures var (next, rest, error) := Receive(verify, ring, buffer, rot);
      && Follows(verify, truth, known + {rot.epoch}, start, next, rest) && error == None
      && (rot.epoch <= |ring| + 1 ==> rot.epoch <= |next|)
  {
    GenuineInstalls(verify, truth, ring, rot);
    if rot.epoch == |ring| + 1 {
      var next := truth[..rot.epoch];
      DrainInstalls(verify, truth, next, buffer);
      var (last, rest) := Drain(verify, next, buffer);
      DrainedFollows(verify, truth, known, start, ring, buffer, next, last, rest);
    } else if rot.epoch > |ring| {
      PushedFollows(verify, truth, known, start, ring, buffer, rot);
    }
  }

  /** Nothing outside the deliveries and the buffer is ever installed. */
  lemma {:induction false} QueueFollows(verify: Verify, truth: Ring, ring: Ring, buffer: seq<SignedRotation>, queue: seq<SignedRotation>)
    requires Follows(verify, truth, Epochs(buffer), |ring|, ring, buffer) && AllGenuine(verify, truth, queue)
    ensures var (last, rest) := DeliverAll(verify, ring, buffer, queue);
      Follows(verify, truth, Epochs(buffer) + Epochs(queue), |ring|, last, rest)
  {
    if queue == [] {
      assert Epochs(buffer) + Epochs(queue) == Epochs(buffer);
    } else {
      var before, last := queue[..|queue| - 1], queue[|queue| - 1];
      assert queue == before + [last];
      EpochsOfAppend(before, [last]);
      assert Epochs([last]) == {last.epoch};
      QueueFollows(verify, truth, ring, buffer, before);
      var (mid, held) := DeliverAll(verify, ring, buffer, before);
      ReceiveFollows(verify, truth, Epochs(buffer) + Epochs(before), |ring|, mid, held, last);
      assert Epochs(buffer) + Epochs(queue) == Epochs(buffer) + Epochs(before) + {last.epoch};
    }
  }

  /** Up to `goal` the queue has every epoch above `n` that precedes one of its entries. */
  ghost predicate NoHole(queue: seq<SignedRotation>, n: nat, goal: nat) {
    forall e, r :: n < e <= goal && r in queue && e <= r.epoch ==> e in Epochs(queue)
  }

  ghost predicate ReachesAll(queue: seq<SignedRotation>, goal: nat, ring: Ring) {
    forall r :: r in queue && r.epoch <= goal ==> r.epoch <= |ring|
  }

  /** In published order an epoch is installed as soon as all before it are available. */
  lemma {:induction false} QueueReaches(verify: Verify, truth: Ring, ring: Ring, buffer: seq<SignedRotation>, queue: seq<SignedRotation>, goal: nat)
    requires Follows(verify, truth, Epochs(buffer), |ring|, ring, buffer)
    requires AllGenuine(verify, truth, queue) && Published(queue) && NoHole(queue, |ring|, goal)
    ensures ReachesAll(queue, goal, DeliverAll(verify, ring, buffer, queue).0)
  {
    if queue != [] {
      var before, last := queue[..|queue| - 1], queue[|queue| - 1];
      assert queue == before + [last];
      NoHoleBefore(queue, |ring|, goal);
      QueueReaches(verify, truth, ring, buffer, before, goal);
      QueueFollows(verify, truth, ring, buffer, before);
      var (mid, held) := DeliverAll(verify, ring, buffer, before);
      ReceiveFollows(verify, truth, Epochs(buffer) + Epochs(before), |ring|, mid, held, last);
      LastIsNext(queue, |ring|, goal, mid);
    }
  }

  lemma NoHoleBefore(queue: seq<SignedRotation>, n: nat, goal: nat)
    requires queue != [] && Published(queue) && NoHole(queue, n, goal)
    ensures Published(queue[..|queue| - 1]) && NoHole(queue[..|queue| - 1], n, goal)
  {
    var before, last := queue[..|queue| - 1], queue[|queue| - 1];
    assert queue == before + [last];
    forall e, r | n < e <= goal && r in before && e <= r.epoch ensures e in Epochs(before) {
      assert r in queue && e in Epochs(queue);
      var q :| q in queue && q.epoch == e;
      assert q != last;
    }
  }

  lemma LastIsNext(queue: seq<SignedRotation>, n: nat, goal: nat, mid: Ring)
    requires queue != [] && Published(queue) && NoHole(queue, n, goal) && n <= |mid|
    requires ReachesAll(queue[..|queue| - 1], goal, mid)
    ensures queue[|queue| - 1].epoch <= goal ==> queue[|queue| - 1].epoch <= |mid| + 1
  {
    var before, last := queue[..|queue| - 1], queue[|queue| - 1];
    assert queue == before + [last];
    if last.epoch <= goal && last.epoch > n + 1 {
      var e := last.epoch - 1;
      assert last in queue && e in Epochs(queue);
      var q :| q in queue && q.epoch == e;
      assert q in before;
    }
  }

  /** A receiver between deliveries: its buffer holds genuine entries and the next epoch is not
      among them. */
  ghost predicate Waits(verify: Verify, truth: Ring, ring: Ring, buffer: seq<SignedRotation>) {
    && ring != [] && ring <= truth
    && BufferOk(buffer) && AllGenuine(verify, truth, buffer)
    && Above(Epochs(buffer), |ring| + 1)
  }

  /** While the next epoch is still to come in the queue, nothing that arrives leaves a gap. */
  lemma NextIsNotSkipped(queue: seq<SignedRotation>, j: nat, held: set<nat>, n: nat)
    requires j < |queue| && Published(queue) && n + 1 in held + Epochs(queue)
    requires n + 1 !in held + Epochs(queue[..j])
    ensures queue[j].epoch <= n + 1
  {
    var r :| r in queue && r.epoch == n + 1;
    var i :| 0 <= i < |queue| && queue[i] == r;
    forall k | 0 <= k < j ensures queue[k].epoch in Epochs(queue[..j]) {
      assert queue[..j][k] == queue[k];
    }
    assert i > j ==> EpochLess(queue[j], queue[i]);
  }

  lemma TracksLacksNext(verify: Verify, truth: Ring, n: nat, seen: set<nat>, ring: Ring, buffer: seq<SignedRotation>)
    requires Tracks(verify, truth, n, seen, ring, buffer)
    ensures |ring| + 1 !in seen
  {
    var next: nat := |ring| + 1;
    assert next in Missing(seen, |ring|) <==> next in seen;
  }

  lemma QueueStepTracks(verify: Verify, truth: Ring, n: nat, queue: seq<SignedRotation>, goal: nat, j: nat, base: set<nat>,
                        mid: Ring, held: seq<SignedRotation>)
    requires AllGenuine(verify, truth, queue) && Published(queue) && j < |queue|
    requires Tracks(verify, truth, n, base + Epochs(queue[..j]), mid, held) && |mid| < goal
    requires forall e :: n < e <= goal ==> e in base + Epochs(queue)
    ensures var (next, rest, _) := Receive(verify, mid, held, queue[j]);
      Tracks(verify, truth, n, base + Epochs(queue[..j + 1]), next, rest)
  {
    var seen, last := base + Epochs(queue[..j]), queue[j];
    assert queue[..j + 1] == queue[..j] + [last];
    EpochsOfAppend(queue[..j], [last]);
    assert Epochs([last]) == {last.epoch};
    TracksLacksNext(verify, truth, n, seen, mid, held);
    NextIsNotSkipped(queue, j, base, |mid|);
    ReceiveTracks(verify, truth, n, seen, mid, held, last);
    assert seen + {last.epoch} == base + Epochs(queue[..j + 1]);
  }

  ghost predicate TracksUntil(verify: Verify, truth: Ring, n: nat, seen: set<nat>, goal: nat, now: (Ring, seq<SignedRotation>)) {
    goal <= |now.0| || Tracks(verify, truth, n, seen, now.0, now.1)
  }

  lemma WaitingTracks(verify: Verify, truth: Ring, ring: Ring, buffer: seq<SignedRotation>)
    requires Waits(verify, truth, ring, buffer)
    ensures Tracks(verify, truth, |ring|, Epochs(buffer), ring, buffer)
  {
    assert Missing(Epochs(buffer), |ring|) == Epochs(buffer);
  }

  /** Until `goal` is reached nothing is evicted. */
  lemma {:induction false} PrefixTracks(verify: Verify, truth: Ring, ring: Ring, buffer: seq<SignedRotation>, queue: seq<SignedRotation>, goal: nat, j: nat)
    requires Waits(verify, truth, ring, buffer) && AllGenuine(verify, truth, queue) && Published(queue) && j <= |queue|
    requires forall e :: |ring| < e <= goal ==> e in Epochs(buffer) + Epochs(queue)
    ensures TracksUntil(verify, truth, |ring|, Epochs(buffer) + Epochs(queue[..j]), goal, DeliverAll(verify, ring, buffer, queue[..j]))
  {
    if j == 0 {
      WaitingTracks(verify, truth, ring, buffer);
      assert Epochs(buffer) + Epochs(queue[..0]) == Epochs(buffer);
    } else {
      assert queue[..j] == queue[..j - 1] + [queue[j - 1]];
      PrefixTracks(verify, truth, ring, buffer, queue, goal, j - 1);
      DeliverLast(verify, ring, buffer, queue[..j - 1], queue[j - 1]);
      var (mid, held) := DeliverAll(verify, ring, buffer, queue[..j - 1]);
      if |mid| < goal {
        QueueStepTracks(verify, truth, |ring|, queue, goal, j - 1, Epochs(buffer), mid, held);
      }
    }
  }

  /** A rebroadcast round reaches epoch `goal` if and only if the queue and the buffer have no hole
      between what the peer holds and `goal`; an epoch rotated by hand, which is never published, is
      such a hole. */
  lemma RebroadcastReachesIff(verify: Verify, truth: Ring, ring: Ring, buffer: seq<SignedRotation>, queue: seq<SignedRotation>, goal: nat)
    requires Waits(verify, truth, ring, buffer) && AllGenuine(verify, truth, queue) && Published(queue)
    ensures goal <= |DeliverAll(verify, ring, buffer, queue).0| <==>
            forall e :: |ring| < e <= goal ==> e in Epochs(buffer) + Epochs(queue)
  {
    QueueFollows(verify, truth, ring, buffer, queue);
    if forall e :: |ring| < e <= goal ==> e in Epochs(buffer) + Epochs(queue) {
      var (last, rest) := DeliverAll(verify, ring, buffer, queue);
      assert queue[..|queue|] == queue;
      PrefixTracks(verify, truth, ring, buffer, queue, goal, |queue|);
      if |last| < goal {
        TracksLacksNext(verify, truth, |ring|, Epochs(buffer) + Epochs(queue), last, rest);
      }
    }
  }

  /** One rebroadcast round brings a peer that misses a contiguous run of epochs fully up to date,
      however long the run and whatever genuine entries its buffer already holds. */
  lemma RebroadcastCatchesUp(verify: Verify, truth: Ring, ring: Ring, buffer: seq<SignedRotation>, queue: seq<SignedRotation>)
    requires ring != [] && ring <= truth && BufferOk(buffer) && AllGenuine(verify, truth, buffer)
    requires AllGenuine(verify, truth, queue) && Published(queue)
    requires forall e :: |ring| < e <= |truth| ==> e in Epochs(queue)
    ensures DeliverAll(verify, ring, buffer, queue).0 == truth
  {
    QueueFollows(verify, truth, ring, buffer, queue);
    QueueReaches(verify, truth, ring, buffer, queue, |truth|);
    if |ring| < |truth| {
      assert |truth| in Epochs(queue);
      var r :| r in queue && r.epoch == |truth|;
    }
  }
}
