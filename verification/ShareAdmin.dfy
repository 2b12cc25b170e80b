/** Inviting, revoking and rotating on the managing peer (src/daemon.rs), with the queue of
    rotations waiting to be rebroadcast and its directory on disk. */
module ShareAdmin {
  import opened Results
  import opened Orders
  import opened AuthLog
  import opened KeyRing
  import opened Rotation
  import opened RotationBuffer
  import opened RotationDelivery

  /** `saved` is auth.log, `dir` is pending_rotations with one file per epoch. */
  datatype Admin<C> = Admin(
    log: Log<C>,
    saved: Option<seq<SignedOp>>,
    ring: Ring,
    pending: seq<SignedRotation>,
    dir: map<nat, SignedRotation>)

  datatype AdminError = NoAuthState | NotAMember | AlreadyMember | AuthFailed | BadRecipient

  datatype Ticket = Ticket(keys: Ring, authLog: seq<SignedOp>, invitee: MemberId)

  /** Who runs the share: the local identity, its group, and the libraries. */
  datatype Site<!C> = Site(me: MemberId, group: MemberId, lib: Library<C>, box: Box)

  function Without(members: seq<(MemberId, AuthRole)>, target: MemberId): seq<MemberId> {
    if members == [] then []
    else (if members[0].0 == target then [] else [members[0].0]) + Without(members[1..], target)
  }

  function Invite<C>(site: Site<C>, a: Admin<C>, invitee: MemberId, role: AuthRole): (Admin<C>, Result<Ticket, AdminError>) {
    if a.log.ops == [] then (a, Err(NoAuthState))
    else if IsMember(site.lib, a.log, site.group, invitee) then (a, Err(AlreadyMember))
    else
      var (log, ok) := Process(site.lib, a.log, AuthoredOp(site.lib, a.log, site.me, site.group, Add(invitee, role)));
      if !ok then (a.(log := log), Err(AuthFailed))
      else (a.(log := log, saved := Some(log.ops)), Ok(Ticket(a.ring, log.ops, invitee)))
  }

  /** A malformed recipient key is noticed only after the keyring has been rotated. */
  function Revoke<C>(site: Site<C>, a: Admin<C>, target: MemberId, newKey: Key, random: nat -> nat)
    : (Admin<C>, Result<nat, AdminError>)
  {
    if a.log.ops == [] then (a, Err(NoAuthState))
    else if !IsMember(site.lib, a.log, site.group, target) then (a, Err(NotAMember))
    else
      var (log, ok) := Process(site.lib, a.log, AuthoredOp(site.lib, a.log, site.me, site.group, Remove(target)));
      if !ok then (a.(log := log), Err(AuthFailed))
      else
        var remaining := Without(site.lib.members(log.crdt, site.group), target);
        var epoch := |a.ring| + 1;
        var b := a.(log := log, saved := Some(log.ops), ring := a.ring + [newKey]);
        match Build(site.box, random, site.me, epoch, newKey, remaining)
        case None => (b, Err(BadRecipient))
        case Some(rot) => (b.(pending := a.pending + [rot], dir := a.dir[epoch := rot]), Ok(epoch))
  }

  function RotateKey<C>(a: Admin<C>, newKey: Key): Admin<C> {
    a.(ring := a.ring + [newKey])
  }

  class AdminTask<C> {
    const site: Site<C>
    const auth: AuthState<C>
    const file: LogFile
    const store: KeyStore
    var pending: seq<SignedRotation>
    var dir: map<nat, SignedRotation>

    ghost predicate Valid()
      reads this, store
    {
      auth.lib == site.lib && store.ring != [] && store.file == Some(Flatten(store.ring))
    }

    function Now(): Admin<C>
      reads this, auth, file, store
    {
      Admin(auth.Now(), file.saved, store.ring, pending, dir)
    }

    constructor (site: Site<C>, auth: AuthState<C>, file: LogFile, store: KeyStore)
      requires auth.lib == site.lib && store.ring != [] && store.file == Some(Flatten(store.ring))
      ensures Valid() && this.site == site
      ensures Now() == Admin(auth.Now(), file.saved, store.ring, [], map[])
    {
      this.site, this.auth, this.file, this.store := site, auth, file, store;
      pending, dir := [], map[];
    }

    method HandleInvite(invitee: MemberId, role: AuthRole) returns (r: Result<Ticket, AdminError>)
      requires Valid()
      modifies auth, file
      ensures Valid()
      ensures (Now(), r) == Invite(site, old(Now()), invitee, role)
    {
      if auth.ops == [] {
        return Err(NoAuthState);
      }
      if IsMember(site.lib, auth.Now(), site.group, invitee) {
        return Err(AlreadyMember);
      }
      var op, ok := auth.Author(site.me, site.group, Add(invitee, role));
      if !ok {
        return Err(AuthFailed);
      }
      file.saved := Some(auth.ops);
      return Ok(Ticket(store.ring, auth.ops, invitee));
    }

    /** Builds the rotation for those who remain, stores it and queues it for the next announce tick. */
    method PublishRotation(epoch: nat, newKey: Key, random: nat -> nat, remaining: seq<MemberId>) returns (ok: bool)
      modifies this
      ensures match Build(site.box, random, site.me, epoch, newKey, remaining)
              case None => !ok && pending == old(pending) && dir == old(dir)
              case Some(rot) => ok && pending == old(pending) + [rot] && dir == old(dir)[epoch := rot]
    {
      var built := BuildSignedRotation(site.box, random, site.me, epoch, newKey, remaining);
      if built.None? {
        return false;
      }
      dir := dir[epoch := built.value];
      pending := pending + [built.value];
      return true;
    }

    method HandleRevoke(target: MemberId, newKey: Key, random: nat -> nat, other: Key) returns (r: Result<nat, AdminError>)
      requires Valid()
      modifies this, auth, file, store
      ensures Valid()
      ensures (Now(), r) == Revoke(site, old(Now()), target, newKey, random)
    {
      if auth.ops == [] {
        return Err(NoAuthState);
      }
      if !IsMember(site.lib, auth.Now(), site.group, target) {
        return Err(NotAMember);
      }
      var op, ok := auth.Author(site.me, site.group, Remove(target));
      if !ok {
        return Err(AuthFailed);
      }
      file.saved := Some(auth.ops);
      var remaining := Without(site.lib.members(auth.crdt, site.group), target);
      var rotated := store.Rotate(newKey, other);
      var published := PublishRotation(rotated.value, newKey, random, remaining);
      return if published then Ok(rotated.value) else Err(BadRecipient);
    }

    method HandleRotateKey(newKey: Key, other: Key) returns (epoch: nat)
      requires Valid()
      modifies store
      ensures Valid()
      ensures Now() == RotateKey(old(Now()), newKey)
      ensures store.ring == old(store.ring) + [newKey] && epoch == |old(store.ring)| + 1
    {
      var rotated := store.Rotate(newKey, other);
      return rotated.value;
    }
  }

  // ---- When the commands succeed, and what they change ----

  /** The peer `m` is in the group of the log. */
  ghost predicate Listed<C>(site: Site<C>, crdt: C, m: MemberId) {
    exists entry :: entry in site.lib.members(crdt, site.group) && entry.0 == m
  }

  /** An invitation is refused before there is a log and for a member. Otherwise it is decided by whether
      the library takes an Add signed over the heads; only success saves the log and gives a ticket. */
  lemma InviteDecides<C>(site: Site<C>, a: Admin<C>, invitee: MemberId, role: AuthRole)
    ensures var (b, r) := Invite(site, a, invitee, role);
      var deps := site.lib.heads(a.log.crdt);
      var op := SignedOp(site.me, deps, site.group, Add(invitee, role), site.lib.sign(site.me, deps, site.group, Add(invitee, role)));
      var taken := site.lib.process(a.log.crdt, op);
      if a.log.ops == [] then b == a && r == Err(NoAuthState)
      else if Listed(site, a.log.crdt, invitee) then b == a && r == Err(AlreadyMember)
      else if taken == None then b == a.(log := a.log.(crdt := site.lib.empty)) && r == Err(AuthFailed)
      else
        var ops := a.log.ops + [op];
        b == a.(log := Log(taken.value, ops, a.log.pending), saved := Some(ops)) && r == Ok(Ticket(a.ring, ops, invitee))
  {
  }

  /** A revocation is refused before there is a log and for a stranger. Once the library has taken the
      Remove, the log is saved and the ring rotated in any case; the rotation is published exactly when
      every member that remains has a usable key. */
  lemma RevokeDecides<C>(site: Site<C>, a: Admin<C>, target: MemberId, newKey: Key, random: nat -> nat)
    ensures var (b, r) := Revoke(site, a, target, newKey, random);
      var deps := site.lib.heads(a.log.crdt);
      var op := SignedOp(site.me, deps, site.group, Remove(target), site.lib.sign(site.me, deps, site.group, Remove(target)));
      var taken := site.lib.process(a.log.crdt, op);
      if a.log.ops == [] then b == a && r == Err(NoAuthState)
      else if !Listed(site, a.log.crdt, target) then b == a && r == Err(NotAMember)
      else if taken == None then b == a.(log := a.log.(crdt := site.lib.empty)) && r == Err(AuthFailed)
      else
        && b.log == Log(taken.value, a.log.ops + [op], a.log.pending) && b.saved == Some(a.log.ops + [op])
        && b.ring == a.ring + [newKey]
        && if !AllUsable(site, taken.value, target) then
             r == Err(BadRecipient) && b.pending == a.pending && b.dir == a.dir
           else
             && r == Ok(|b.ring|) && |b.pending| == |a.pending| + 1
             && var rot := b.pending[|a.pending|];
                && rot.epoch == |b.ring| && rot.rotator == site.me
                && b.pending == a.pending + [rot] && b.dir == a.dir[|b.ring| := rot]
  {
    if a.log.ops != [] && Listed(site, a.log.crdt, target) {
      var taken := site.lib.process(a.log.crdt, AuthoredOp(site.lib, a.log, site.me, site.group, Remove(target)));
      if taken.Some? {
        RemainingBuild(site, taken.value, target, |a.ring| + 1, newKey, random);
      }
    }
  }

  /** Every member other than `target` has a usable key. */
  ghost predicate AllUsable<C>(site: Site<C>, crdt: C, target: MemberId) {
    forall entry :: entry in site.lib.members(crdt, site.group) && entry.0 != target ==> site.box.validKey(entry.0)
  }

  lemma RemainingBuild<C>(site: Site<C>, crdt: C, target: MemberId, epoch: nat, key: Key, random: nat -> nat)
    ensures var r := Build(site.box, random, site.me, epoch, key, Without(site.lib.members(crdt, site.group), target));
      && (r.Some? <==> AllUsable(site, crdt, target))
      && (r.Some? ==> r.value.epoch == epoch && r.value.rotator == site.me)
  {
    var members := site.lib.members(crdt, site.group);
    forall m ensures m in Without(members, target) <==> m != target && exists entry :: entry in members && entry.0 == m {
      WithoutDropsExactlyTarget(members, target, m);
    }
    BuildDecides(site.box, random, site.me, epoch, key, Without(members, target));
  }

  // ---- The rebroadcast queue ----

  /** The queue ascends strictly, stays within the ring, and the directory holds the same rotations. */
  ghost predicate QueueMatches(ring: Ring, pending: seq<SignedRotation>, dir: map<nat, SignedRotation>) {
    && Published(pending)
    && (forall r :: r in pending ==> 1 <= r.epoch <= |ring| && r.epoch in dir && dir[r.epoch] == r)
    && (forall e :: e in dir ==> dir[e] in pending && dir[e].epoch == e)
  }

  ghost predicate QueueOk<C>(a: Admin<C>) {
    QueueMatches(a.ring, a.pending, a.dir)
  }

  lemma AppendKeepsQueue(ring: Ring, pending: seq<SignedRotation>, dir: map<nat, SignedRotation>, key: Key, rot: SignedRotation)
    requires QueueMatches(ring, pending, dir) && rot.epoch == |ring| + 1
    ensures QueueMatches(ring + [key], pending + [rot], dir[rot.epoch := rot])
  {
    var more := pending + [rot];
    forall i, j | 0 <= i < j < |more| ensures more[i].epoch < more[j].epoch {
      assert more[i] in pending;
    }
    forall e | e in dir ensures e != rot.epoch {
      assert dir[e] in pending;
    }
  }

  /** A directory listing: every file once, in any order. */
  ghost predicate Lists(dir: map<nat, SignedRotation>, files: seq<SignedRotation>) {
    && |files| == |dir|
    && Epochs(files) == dir.Keys
    && forall r :: r in files ==> r.epoch in dir && dir[r.epoch] == r
  }

  lemma ListOneMore(dir: map<nat, SignedRotation>, listed: seq<SignedRotation>, todo: set<nat>, e: nat)
    requires e in todo && todo <= dir.Keys && dir[e].epoch == e
    requires |listed| + |todo| == |dir.Keys| && Epochs(listed) == dir.Keys - todo
    ensures |listed + [dir[e]]| + |todo - {e}| == |dir.Keys|
    ensures Epochs(listed + [dir[e]]) == dir.Keys - (todo - {e})
  {
    EpochsOfAppend(listed, [dir[e]]);
    assert Epochs([dir[e]]) == {e};
  }

  lemma SortedListingIsPublished(files: seq<SignedRotation>)
    requires |Epochs(files)| == |files|
    ensures Published(SortBy(EpochLess, files))
    decreases |files|
  {
    var s := SortBy(EpochLess, files);
    SortKeepsEntries(files);
    assert StrictWeak(EpochLess);
    SortSorts(EpochLess, files);
    forall i, j | 0 <= i < j < |s| ensures s[i].epoch < s[j].epoch {
      assert !EpochLess(s[j], s[i]);
      DistinctAt(s, i, j);
    }
  }

  lemma {:induction false} DistinctAt(s: seq<SignedRotation>, i: nat, j: nat)
    requires |Epochs(s)| == |s| && i < j < |s|
    ensures s[i].epoch != s[j].epoch
  {
    TailOfDistinct(s);
    if i == 0 {
      assert s[1..][j - 1].epoch in Epochs(s[1..]);
    } else {
      DistinctAt(s[1..], i - 1, j - 1);
    }
  }

  /** Sorting any listing gives every rotation of the directory, in strictly ascending order. */
  lemma SortedListing(dir: map<nat, SignedRotation>, files: seq<SignedRotation>)
    requires Lists(dir, files)
    ensures Published(SortBy(EpochLess, files))
    ensures forall r :: r in SortBy(EpochLess, files) <==> r.epoch in dir && dir[r.epoch] == r
  {
    SortedListingIsPublished(files);
    SortKeepsEntries(files);
    forall r: SignedRotation | r.epoch in dir && dir[r.epoch] == r ensures r in files {
      assert r.epoch in Epochs(files);
      var f :| f in files && f.epoch == r.epoch;
      assert f == r;
    }
  }

  /** Reads every file of the directory, in the order the file system lists them, and sorts. */
  method LoadPending(dir: map<nat, SignedRotation>) returns (queue: seq<SignedRotation>)
    requires forall e :: e in dir ==> dir[e].epoch == e
    ensures Published(queue)
    ensures forall r :: r in queue <==> r.epoch in dir && dir[r.epoch] == r
  {
    var listed: seq<SignedRotation> := [];
    var todo := dir.Keys;
    while todo != {}
      invariant todo <= dir.Keys
      invariant |listed| + |todo| == |dir.Keys|
      invariant Epochs(listed) == dir.Keys - todo
      invariant forall r :: r in listed ==> r.epoch in dir && dir[r.epoch] == r
      decreases todo
    {
      var e :| e in todo;
      ListOneMore(dir, listed, todo, e);
      listed, todo := listed + [dir[e]], todo - {e};
    }
    queue := SortBy(EpochLess, listed);
    SortedListing(dir, listed);
  }

  /** After a restart the queue read back from disk is the queue in memory. */
  lemma LoadPendingIsQueue<C>(a: Admin<C>, files: seq<SignedRotation>)
    requires QueueOk(a) && Lists(a.dir, files)
    ensures SortBy(EpochLess, files) == a.pending
  {
    SortedListing(a.dir, files);
    AscendingUnique(EpochLess, SortBy(EpochLess, files), a.pending);
  }

  lemma RevokeKeepsQueue<C>(site: Site<C>, a: Admin<C>, target: MemberId, newKey: Key, random: nat -> nat)
    requires QueueOk(a)
    ensures var (b, r) := Revoke(site, a, target, newKey, random);
      && QueueOk(b)
      && (r.Ok? ==> b.ring == a.ring + [newKey] && r == Ok(|b.ring|)
                    && b.pending != [] && b.pending[|b.pending| - 1].epoch == |b.ring|)
  {
    var (b, r) := Revoke(site, a, target, newKey, random);
    if r.Ok? {
      AppendKeepsQueue(a.ring, a.pending, a.dir, newKey, b.pending[|a.pending|]);
    }
  }

  /** Every handler keeps the queue in order; a successful revocation appends the new epoch. */
  lemma HandlersKeepQueue<C>(site: Site<C>, a: Admin<C>, target: MemberId, role: AuthRole, newKey: Key, random: nat -> nat)
    requires QueueOk(a)
    ensures QueueOk(Invite(site, a, target, role).0) && QueueOk(RotateKey(a, newKey))
    ensures var (b, r) := Revoke(site, a, target, newKey, random);
      && QueueOk(b)
      && (r.Ok? ==> b.ring == a.ring + [newKey] && r == Ok(|b.ring|)
                    && b.pending != [] && b.pending[|b.pending| - 1].epoch == |b.ring|)
  {
    RevokeKeepsQueue(site, a, target, newKey, random);
  }

  lemma {:induction false} WithoutDropsExactlyTarget(members: seq<(MemberId, AuthRole)>, target: MemberId, m: MemberId)
    ensures m in Without(members, target) <==> m != target && exists r :: r in members && r.0 == m
  {
    if members != [] {
      assert members == [members[0]] + members[1..];
      WithoutDropsExactlyTarget(members[1..], target, m);
    }
  }

  /** The rotation of a revocation opens to the new key for exactly the members that remain. */
  lemma RevokeReachesExactlyTheRest<C>(site: Site<C>, a: Admin<C>, target: MemberId, newKey: Key, random: nat -> nat,
                                       view: seq<(MemberId, AuthRole)>, m: MemberId)
    requires Lawful(site.box) && Revoke(site, a, target, newKey, random).1.Ok? && (site.me, Owner) in view
    ensures var b := Revoke(site, a, target, newKey, random).0;
      VerifyAndDecrypt(site.box, b.pending[|a.pending|], view, m) ==
        if m != target && IsMember(site.lib, b.log, site.group, m) then OkForUs(newKey) else NotForUs
  {
    var b := Revoke(site, a, target, newKey, random).0;
    var members := site.lib.members(b.log.crdt, site.group);
    var remaining := Without(members, target);
    WithoutDropsExactlyTarget(members, target, m);
    RotationOpensExactlyForRecipients(site.box, random, site.me, |a.ring| + 1, newKey, remaining, view, m);
  }
}
