/** One peer's folder, shadow and version over local changes, fetches and restarts
    (src/daemon.rs). */
module ShareFolder {
  import opened Results
  import opened Clocks
  import opened SyncState
  import opened KeyRing
  import opened Snapshot
  import opened Shadow

  datatype ShareState = ShareState(hash: string, clock: Clock, time: int, manifest: set<Path>)

  function VersionOf(s: Option<ShareState>): Option<Version> {
    if s.None? then None else Some(Version(s.value.hash, s.value.clock, s.value.time))
  }

  /** `hasShadow` tells whether the shadow directory exists. */
  datatype Folder = Folder(plain: Tree, shadow: Tree, hasShadow: bool, state: Option<ShareState>, persisted: Option<ShareState>)

  datatype Host = Host(me: Peer, hashing: Hashing, cipher: Cipher)

  predicate HasContent(f: Folder) {
    f.plain != map[] || f.hasShadow
  }

  ghost function DiskHash(host: Host, f: Folder): string {
    VersionHash(host.hashing, f.plain)
  }

  /** What the sync loop sees of the root: its content hash, or that it is empty. */
  ghost function RootHash(host: Host, f: Folder): Option<string> {
    if HasContent(f) then Some(DiskHash(host, f)) else None
  }

  /** The folder now carries version `v` of its own content, freshly mirrored in the shadow. */
  ghost predicate Adopted(host: Host, ring: Ring, nonces: Path -> Nonce, before: Folder, clock: Clock, time: int, after: Folder)
    requires ring != []
  {
    && after.plain == before.plain && after.hasShadow
    && Mirrors(host.cipher, ring, nonces, before.plain, Collected(before.plain), before.shadow, after.shadow)
    && after.state == Some(ShareState(DiskHash(host, before), clock, time, Collected(before.plain)))
  }

  ghost predicate Unchanged(host: Host, f: Folder) {
    !HasContent(f) || (f.state.Some? && f.state.value.hash == DiskHash(host, f))
  }

  /** Whether a complete fetch of `files` for `remote` passes decryption and the hash check. */
  ghost predicate Applies(host: Host, ring: Ring, f: Folder, files: Tree, remote: Version) {
    var shadow := f.shadow + files;
    AllOpen(host.cipher, ring, shadow) &&
    VersionHash(host.hashing, RestoredTree(host.cipher, ring, shadow, f.plain)) == remote.hash
  }

  ghost function StaleFiles(f: Folder, manifest: set<Path>): set<Path> {
    if f.state.Some? then f.state.value.manifest - manifest else {}
  }

  ghost predicate Fetched(host: Host, ring: Ring, before: Folder, files: Tree, remote: Version, after: Folder) {
    Applies(host, ring, before, files, remote) &&
    var shadow := before.shadow + files;
    var version := Adopt(VersionOf(before.state), remote);
    && after.shadow == shadow && after.hasShadow
    && after.plain == RestoredTree(host.cipher, ring, shadow, before.plain) - StaleFiles(before, Shadowed(shadow))
    && after.state == Some(ShareState(version.hash, version.clock, version.time, Shadowed(shadow)))
  }

  /** The walk of a directory tree, in the order the file system gives. */
  method CollectFiles(tree: Tree) returns (listing: seq<Path>)
    ensures multiset(listing) == multiset(Collected(tree))
  {
    listing := [];
    var todo := Collected(tree);
    while todo != {}
      invariant todo <= Collected(tree)
      invariant multiset(listing) == multiset(Collected(tree) - todo)
      decreases todo
    {
      var p :| p in todo;
      assert Collected(tree) - (todo - {p}) == (Collected(tree) - todo) + {p};
      listing, todo := listing + [p], todo - {p};
    }
    assert Collected(tree) - todo == Collected(tree);
  }

  /** The walk of the shadow, by the files it yields the ciphertext of, in any order. */
  ghost predicate Walks(order: seq<Path>, shadow: Tree) {
    forall p :: p in order <==> p in Shadowed(shadow)
  }

  /** What a complete fetch leaves in the folder when it fails: what was decrypted before the first file
      that does not open, or everything when it is the hash that differs. */
  ghost predicate LeftBy(host: Host, ring: Ring, shadow: Tree, order: seq<Path>, before: Tree, after: Tree)
    requires Walks(order, shadow)
  {
    Restored(host.cipher, ring, shadow, before, Firsts(order, FirstClosed(host.cipher, ring, shadow, order)), after)
  }

  /** Decrypt the shadow into the folder and compare the outcome with the announced hash. */
  method RestoreAndCheck(host: Host, ring: Ring, shadow: Tree, order: seq<Path>, plain: Tree, expected: string)
    returns (after: Tree, manifest: Option<set<Path>>)
    requires NoTemporaries(Shadowed(shadow)) && Walks(order, shadow)
    ensures LeftBy(host, ring, shadow, order, plain, after)
    ensures manifest.Some? <==>
      AllOpen(host.cipher, ring, shadow) &&
      VersionHash(host.hashing, RestoredTree(host.cipher, ring, shadow, plain)) == expected
    ensures manifest.Some? ==> manifest.value == Shadowed(shadow) && after == RestoredTree(host.cipher, ring, shadow, plain)
  {
    var opens;
    after, opens := SyncShadowToPlaintext(host.cipher, ring, shadow, order, plain);
    if opens.Err? {
      return after, None;
    }
    AllOpenIff(host.cipher, ring, shadow, order);
    RestoredIsDetermined(host.cipher, ring, shadow, plain, after);
    var listing := CollectFiles(after);
    var hash, _ := SnapshotContent(host.hashing, after, listing);
    if hash != expected {
      return after, None;
    }
    return after, Some(opens.value);
  }

  method BumpedClock(ours: Clock, me: Peer) returns (clock: Clock)
    ensures clock == Bump(ours, me)
  {
    var bumped := new VectorClock();
    bumped.entries := ours;
    bumped.Increment(me);
    clock := bumped.entries;
  }

  method MergedClock(ours: Clock, theirs: Clock) returns (clock: Clock)
    ensures clock == Join(ours, theirs)
  {
    var merged := new VectorClock();
    var other := new VectorClock();
    merged.entries, other.entries := ours, theirs;
    merged.Merge(other);
    clock := merged.entries;
  }

  method ComparedClocks(ours: Clock, theirs: Clock) returns (relation: ClockOrdering)
    ensures relation == Relate(ours, theirs)
  {
    var own := new VectorClock();
    var other := new VectorClock();
    own.entries, other.entries := ours, theirs;
    relation := own.Compare(other);
  }

  /** What the sync loop does with an announce; one that lacks a field is ignored. */
  function DecisionOn(current: Option<Version>, a: Announce): Decision {
    if Announced(a).Some? then Decide(current, Announced(a).value) else Ignore
  }

  /** Whether the complete fetch of `files` passes the checks for what was announced. */
  ghost predicate Fits(host: Host, ring: Ring, f: Folder, files: Tree, a: Announce) {
    Announced(a).Some? && Applies(host, ring, f, files, Announced(a).value)
  }

  lemma FetchedParts(host: Host, ring: Ring, before: Folder, files: Tree, remote: Version, after: Folder)
    requires Applies(host, ring, before, files, remote)
    requires after.shadow == before.shadow + files && after.hasShadow
    requires var tree := RestoredTree(host.cipher, ring, before.shadow + files, before.plain);
      after.plain == if before.state.Some? then tree - (before.state.value.manifest - Shadowed(after.shadow)) else tree
    requires after.state == Some(ShareState(remote.hash, Join(ClockOf(VersionOf(before.state)), remote.clock), remote.time, Shadowed(after.shadow)))
    ensures Fetched(host, ring, before, files, remote, after)
  {
    var tree := RestoredTree(host.cipher, ring, before.shadow + files, before.plain);
    assert tree - {} == tree;
  }

  class ShareTask {
    const host: Host
    var plain: Tree
    var shadow: Tree
    var hasShadow: bool
    var state: Option<ShareState>
    var persisted: Option<ShareState>

    function Now(): Folder
      reads this
    {
      Folder(plain, shadow, hasShadow, state, persisted)
    }

    constructor (host: Host, plain: Tree)
      ensures this.host == host && Now() == Folder(plain, map[], false, None, None)
    {
      this.host, this.plain := host, plain;
      shadow, hasShadow, state, persisted := map[], false, None, None;
    }

    /** Encrypts the folder into the shadow and takes up the state `s` that describes it. */
    method Mirror(ring: Ring, nonces: Path -> Nonce, s: ShareState)
      requires ring != [] && s.hash == DiskHash(host, Now()) && s.manifest == Collected(plain)
      modifies this`shadow, this`hasShadow, this`state
      ensures Adopted(host, ring, nonces, old(Now()), s.clock, s.time, Now()) && state == Some(s)
    {
      shadow := SyncPlaintextToShadow(host.cipher, ring, nonces, plain, shadow, s.manifest);
      hasShadow := true;
      state := Some(s);
    }

    method HandleLocalChange(ring: Ring, nonces: Path -> Nonce, now: int) returns (changed: bool)
      requires ring != []
      modifies this
      ensures changed <==> !Unchanged(host, old(Now()))
      ensures !changed ==> Now() == old(Now())
      ensures changed ==> Adopted(host, ring, nonces, old(Now()), Bump(ClockOf(VersionOf(old(state))), host.me), now, Now())
      ensures Checked(host, ring, nonces, now, old(Now()), if changed then Now() else old(Now()))
      ensures changed ==> persisted == state
      ensures var v := LocalChange(VersionOf(old(state)), host.me, RootHash(host, old(Now())), now);
        VersionOf(state) == if v.Some? then v else VersionOf(old(state))
      ensures CountsEdit(VersionOf(old(state)), host.me, RootHash(host, old(Now())), now, if changed then VersionOf(state) else None)
    {
      LocalChangeCounts(VersionOf(state), host.me, RootHash(host, Now()), now);
      if plain == map[] && !hasShadow {
        return false;
      }
      var listing := CollectFiles(plain);
      var hash, manifest := SnapshotContent(host.hashing, plain, listing);
      if state.Some? && state.value.hash == hash {
        return false;
      }
      var clock := BumpedClock(ClockOf(VersionOf(state)), host.me);
      Mirror(ring, nonces, ShareState(hash, clock, now, manifest));
      persisted := state;
      return true;
    }

    /** `complete` tells whether the fetch brought all of `files`; an incomplete one brings some.
        `order` is how the walk of the shadow then goes. */
    method ApplyRemoteSync(ring: Ring, files: Tree, complete: bool, order: seq<Path>, remote: Version) returns (ok: bool)
      requires NoTemporaries(Shadowed(shadow + files)) && Walks(order, shadow + files)
      modifies this
      ensures ok <==> complete && Applies(host, ring, old(Now()), files, remote)
      ensures ok ==> Fetched(host, ring, old(Now()), files, remote, Now()) && persisted == state
      ensures !ok ==> state == old(state) && persisted == old(persisted) && shadow == old(shadow) + files && hasShadow
      ensures !complete ==> plain == old(plain)
      ensures !ok && complete ==> LeftBy(host, ring, shadow, order, old(plain), plain)
    {
      hasShadow := true;
      shadow := shadow + files;
      if !complete {
        return false;
      }
      ghost var before := old(Now());
      var after, checked := RestoreAndCheck(host, ring, shadow, order, plain, remote.hash);
      plain := after;
      if checked.None? {
        return false;
      }
      if state.Some? {
        plain := plain - (state.value.manifest - checked.value);
      }
      var clock := MergedClock(ClockOf(VersionOf(state)), remote.clock);
      state := Some(ShareState(remote.hash, clock, remote.time, checked.value));
      persisted := state;
      FetchedParts(host, ring, before, files, remote, Now());
      return true;
    }

    /** Compares the clocks, and the stamps where the clocks are concurrent. */
    method Judge(a: Announce) returns (decision: Decision)
      ensures decision == DecisionOn(VersionOf(state), a)
    {
      if a.versionHash.None? || a.clock.None? || a.timestamp.None? {
        return Ignore;
      }
      if state.None? {
        return Fetch;
      }
      var relation := ComparedClocks(state.value.clock, a.clock.value);
      match relation
      case Equal => return Ignore;
      case SelfDominates => return Ignore;
      case OtherDominates => return Fetch;
      case Concurrent =>
        var weWin := LwwWeWin(state.value.time, state.value.hash, a.timestamp.value, a.versionHash.value);
        return if weWin then KeepLocal else Fetch;
    }

    /** Ours won: only the clock changes, so that the next announce dominates. */
    method KeepContent(theirs: Clock)
      requires state.Some?
      modifies this`state, this`persisted
      ensures persisted == state == Some(old(state).value.(clock := Join(old(state).value.clock, theirs)))
    {
      var clock := MergedClock(state.value.clock, theirs);
      state := Some(state.value.(clock := clock));
      persisted := state;
    }

    /** An announce is ignored, answered by keeping the local content under a merged clock, or fetched.
        The version becomes what the sync-level decision says, where a fetch counts as such when it
        is complete and passes its checks. */
    method OnAnnounce(ring: Ring, a: Announce, files: Tree, complete: bool, order: seq<Path>) returns (published: bool)
      requires NoTemporaries(Shadowed(shadow + files)) && Walks(order, shadow + files)
      modifies this
      ensures var v := Receive(VersionOf(old(state)), a, complete && Fits(host, ring, old(Now()), files, a));
        && (published <==> v.Some?)
        && VersionOf(state) == (if v.Some? then v else VersionOf(old(state)))
      ensures Heard(VersionOf(old(state)), a, complete && Fits(host, ring, old(Now()), files, a), if published then VersionOf(state) else None)
      ensures if published then persisted == state else state == old(state) && persisted == old(persisted)
      ensures DecisionOn(VersionOf(old(state)), a) == KeepLocal ==> state.Some? && state.value.manifest == old(state).value.manifest
      ensures DecisionOn(VersionOf(old(state)), a) != Fetch ==>
        plain == old(plain) && shadow == old(shadow) && hasShadow == old(hasShadow)
      ensures DecisionOn(VersionOf(old(state)), a) == Fetch ==>
        if published then Fetched(host, ring, old(Now()), files, Announced(a).value, Now())
        else
          && shadow == old(shadow) + files && hasShadow
          && if complete then LeftBy(host, ring, shadow, order, old(plain), plain) else plain == old(plain)
    {
      ReceiveResolves(VersionOf(state), a, complete && Fits(host, ring, Now(), files, a));
      var decision := Judge(a);
      match decision
      case Ignore =>
        return false;
      case KeepLocal =>
        KeepContent(a.clock.value);
        return true;
      case Fetch =>
        published := ApplyRemoteSync(ring, files, complete, order, Version(a.versionHash.value, a.clock.value, a.timestamp.value));
    }

    /** The state is rebuilt from the persisted one and the disk. */
    method ReconcileOnStart(ring: Ring, nonces: Path -> Nonce, now: int)
      requires ring != []
      modifies this
      ensures !HasContent(old(Now())) ==> state == None && Now() == old(Now()).(state := None)
      ensures HasContent(old(Now())) ==>
        var v := Reconcile(VersionOf(old(persisted)), host.me, Some(DiskHash(host, old(Now()))), now).value;
        Adopted(host, ring, nonces, old(Now()), v.clock, v.time, Now())
      ensures HasContent(old(Now())) ==> VersionOf(persisted) == VersionOf(state)
      ensures VersionOf(state) == Reconcile(VersionOf(old(persisted)), host.me, RootHash(host, old(Now())), now)
    {
      state := None;
      if plain == map[] && !hasShadow {
        return;
      }
      var listing := CollectFiles(plain);
      var hash, manifest := SnapshotContent(host.hashing, plain, listing);
      if persisted.Some? && persisted.value.hash == hash {
        Mirror(ring, nonces, ShareState(hash, persisted.value.clock, persisted.value.time, manifest));
        return;
      }
      var clock := BumpedClock(ClockOf(VersionOf(persisted)), host.me);
      Mirror(ring, nonces, ShareState(hash, clock, now, manifest));
      persisted := state;
    }
  }

  // ---- No echo ----

  /** The state describes exactly what is on disk. */
  ghost predicate Clean(host: Host, f: Folder) {
    f.state.Some? ==> f.state.value.hash == DiskHash(host, f) && f.state.value.manifest == Collected(f.plain)
  }

  /** The shadow holds every file of the last version. */
  ghost predicate ShadowCovers(f: Folder) {
    f.state.Some? ==> f.state.value.manifest <= Shadowed(f.shadow)
  }

  /** The manifest of the last version lists files that a walk reports. */
  ghost predicate ManifestVisible(f: Folder) {
    f.state.Some? ==> AllVisible(f.state.value.manifest)
  }

  lemma MirrorShadowsManifest(c: Cipher, ring: Ring, nonces: Path -> Nonce, plain: Tree, manifest: set<Path>, before: Tree, after: Tree)
    requires ring != [] && manifest <= Collected(plain)
    requires Mirrors(c, ring, nonces, plain, manifest, before, after)
    ensures Shadowed(after) == manifest
  {
    forall p | p in manifest ensures p in Shadowed(after) {
      BinPathIsVisible(p);
      ShadowedIff(after, p);
    }
  }

  /** After a local change or a restart the state is the disk's and the shadow covers it. */
  lemma AdoptedIsClean(host: Host, ring: Ring, nonces: Path -> Nonce, before: Folder, clock: Clock, time: int, after: Folder)
    requires ring != [] && Adopted(host, ring, nonces, before, clock, time, after)
    ensures Clean(host, after) && ShadowCovers(after) && ManifestVisible(after) && after.state.Some?
  {
    MirrorShadowsManifest(host.cipher, ring, nonces, before.plain, Collected(before.plain), before.shadow, after.shadow);
  }

  /** A clean folder does not react to a watcher event: the clock is not bumped without an edit. */
  lemma NoEcho(host: Host, f: Folder)
    requires Clean(host, f) && f.state.Some?
    ensures Unchanged(host, f)
  {
  }

  lemma {:induction false} ShadowedUnion(a: Tree, b: Tree)
    ensures Shadowed(a + b) == Shadowed(a) + Shadowed(b)
  {
    forall p | p in Shadowed(a) + Shadowed(b) ensures p in Shadowed(a + b) {
      ShadowedNotEmptyIn(a, b, p);
      ShadowedIff(a, p);
      ShadowedIff(b, p);
      ShadowedIff(a + b, p);
    }
    forall p | p in Shadowed(a + b) ensures p in Shadowed(a) + Shadowed(b) {
      ShadowedNotEmpty(a + b, p);
      ShadowedIff(a, p);
      ShadowedIff(b, p);
      ShadowedIff(a + b, p);
    }
  }

  lemma ShadowedNotEmptyIn(a: Tree, b: Tree, p: Path)
    requires p in Shadowed(a) + Shadowed(b)
    ensures p != []
  {
    if p in Shadowed(a) {
      ShadowedNotEmpty(a, p);
    } else {
      ShadowedNotEmpty(b, p);
    }
  }

  ghost predicate AllVisible(paths: set<Path>) {
    forall p :: p in paths ==> Visible(p)
  }

  /** The fetched files carry `content`, the content that was announced. */
  ghost predicate Carries(host: Host, files: Tree, remote: Version, content: Tree) {
    VersionHash(host.hashing, content) == remote.hash && Collected(content) <= Shadowed(files)
  }

  /** After a successful fetch the disk holds exactly the announced content, the state describes it,
      and the deletion of orphans removed nothing: it runs after the hash check, which leaves no file
      outside the shadow. This holds whatever the user did to the folder or to its shadow. */
  lemma FetchedIsClean(host: Host, ring: Ring, before: Folder, files: Tree, remote: Version, content: Tree, after: Folder)
    requires ManifestVisible(before) && Fetched(host, ring, before, files, remote, after)
    requires AllVisible(Shadowed(before.shadow + files)) && Carries(host, files, remote, content)
    requires NoCollision(host.hashing, RestoredTree(host.cipher, ring, before.shadow + files, before.plain), content)
    ensures after.plain == RestoredTree(host.cipher, ring, before.shadow + files, before.plain)
    ensures ShadowCovers(before) ==> StaleFiles(before, Shadowed(before.shadow + files)) == {}
    ensures Clean(host, after) && ShadowCovers(after) && ManifestVisible(after)
    ensures Content(after.plain) == Content(content)
  {
    var shadow := before.shadow + files;
    var tree := RestoredTree(host.cipher, ring, shadow, before.plain);
    ShadowedUnion(before.shadow, files);
    VersionHashIdentifiesContent(host.hashing, tree, content);
    ShadowIsCollected(tree, Shadowed(shadow), content);
    NothingIsStale(before, Shadowed(shadow), tree);
  }

  lemma NothingIsStale(f: Folder, manifest: set<Path>, tree: Tree)
    requires ManifestVisible(f) && Collected(tree) <= manifest
    ensures tree - StaleFiles(f, manifest) == tree
  {
    forall p | p in StaleFiles(f, manifest) ensures p !in tree {
      assert p in tree ==> p in Collected(tree);
    }
  }

  lemma ShadowIsCollected(tree: Tree, shadowed: set<Path>, content: Tree)
    requires Content(tree) == Content(content) && Collected(content) <= shadowed
    requires shadowed <= tree.Keys && AllVisible(shadowed)
    ensures Collected(tree) == shadowed
  {
    assert Collected(tree) == Content(tree).Keys == Content(content).Keys == Collected(content);
  }

  // ---- Whole histories of a folder ----

  /** What happens to a folder: the user edits files or tampers with the shadow, a handler mirrors the
      disk (a local change or a restart), a fetch is accepted or fails half-way, or a restart finds an
      empty root. `content` is what the fetched announce stands for; a failed fetch brought the shadow
      files `some`, decrypted `done` and left the folder as `left`. */
  datatype Event =
    | UserEdit(plain: Tree, shadow: Tree, hasShadow: bool)
    | Mirrored(ring: Ring, nonces: Path -> Nonce, clock: Clock, time: int)
    | FetchAccepted(reader: Ring, files: Tree, remote: Version, content: Tree)
    | FetchFailed(reader: Ring, some: Tree, done: set<Path>, left: Tree)
    | FoundEmpty

  ghost predicate HalfFetched(host: Host, reader: Ring, some: Tree, done: set<Path>, left: Tree, a: Folder, b: Folder) {
    && Restored(host.cipher, reader, a.shadow + some, a.plain, done, left)
    && b == a.(shadow := a.shadow + some, hasShadow := true, plain := left)
  }

  ghost predicate Happens(host: Host, e: Event, a: Folder, b: Folder) {
    match e
    case UserEdit(plain, shadow, hasShadow) => b == a.(plain := plain, shadow := shadow, hasShadow := hasShadow)
    case Mirrored(ring, nonces, clock, time) => ring != [] && Adopted(host, ring, nonces, a, clock, time, b)
    case FetchAccepted(ring, files, remote, content) =>
      && Fetched(host, ring, a, files, remote, b)
      && AllVisible(Shadowed(a.shadow + files)) && Carries(host, files, remote, content)
      && NoCollision(host.hashing, RestoredTree(host.cipher, ring, a.shadow + files, a.plain), content)
    case FetchFailed(ring, some, done, left) => HalfFetched(host, ring, some, done, left, a, b)
    case FoundEmpty => b == a.(state := None)
  }

  /** Only the user takes files out of the shadow behind the daemon's back. */
  ghost predicate LeavesShadow(e: Event, a: Folder) {
    e.UserEdit? ==> e.shadow == a.shadow
  }

  lemma EventKeepsManifest(host: Host, e: Event, a: Folder, b: Folder)
    requires Happens(host, e, a, b) && ManifestVisible(a)
    ensures ManifestVisible(b)
    ensures ShadowCovers(a) && LeavesShadow(e, a) ==> ShadowCovers(b)
    ensures e.Mirrored? || e.FetchAccepted? ==> Clean(host, b) && b.state.Some?
  {
    match e
    case Mirrored(ring, nonces, clock, time) => AdoptedIsClean(host, ring, nonces, a, clock, time, b);
    case FetchAccepted(ring, files, remote, content) => FetchedIsClean(host, ring, a, files, remote, content, b);
    case FetchFailed(_, some, _, _) => ShadowedUnion(a.shadow, some);
    case _ =>
  }

  /** Over any history, after every local change, restart and accepted fetch the state is exactly the
      disk's, so that the watcher event which follows it changes nothing. As long as the user stays
      out of the shadow, it holds every file of the last version. */
  lemma {:induction false} HistoryHasNoEcho(host: Host, events: seq<Event>, folders: seq<Folder>, i: nat)
    requires |folders| == |events| + 1 && folders[0].state == None
    requires forall k :: 0 <= k < |events| ==> Happens(host, events[k], folders[k], folders[k + 1])
    requires i <= |events|
    ensures ManifestVisible(folders[i])
    ensures (forall k :: 0 <= k < i ==> LeavesShadow(events[k], folders[k])) ==> ShadowCovers(folders[i])
    ensures i > 0 && (events[i - 1].Mirrored? || events[i - 1].FetchAccepted?) ==>
      Clean(host, folders[i]) && Unchanged(host, folders[i])
  {
    if i > 0 {
      HistoryHasNoEcho(host, events, folders, i - 1);
      EventKeepsManifest(host, events[i - 1], folders[i - 1], folders[i]);
      if events[i - 1].Mirrored? || events[i - 1].FetchAccepted? {
        NoEcho(host, folders[i]);
      }
    }
  }

  // ---- A failed fetch ----

  /** Everything decrypted so far was in the folder already, byte for byte. */
  ghost predicate BroughtNothing(c: Cipher, ring: Ring, shadow: Tree, plain: Tree, done: set<Path>)
    requires done <= Shadowed(shadow)
  {
    forall p :: p in done && p != [] ==> p in plain && Opened(c, ring, shadow, p) == Ok(plain[p])
  }

  lemma PartlyRestoredContentIff(c: Cipher, ring: Ring, shadow: Tree, plain: Tree, done: set<Path>, left: Tree)
    requires Restored(c, ring, shadow, plain, done, left) && AllVisible(done)
    requires NoTemporaries(Collected(plain) + Shadowed(shadow))
    ensures Content(left) == Content(plain) <==> BroughtNothing(c, ring, shadow, plain, done)
  {
    forall p | p in Collected(plain) ensures !exists q :: q in done && q != [] && p == TmpPath(q) {
    }
    if Content(left) == Content(plain) {
      forall p | p in done && p != [] ensures p in plain && Opened(c, ring, shadow, p) == Ok(plain[p]) {
        assert p in Content(left) && Content(left)[p] == left[p];
        assert p in Content(plain) && Content(plain)[p] == plain[p];
      }
    }
    if BroughtNothing(c, ring, shadow, plain, done) {
      forall p ensures p in Content(left) <==> p in Content(plain) {
        if p in done {
          ShadowedNotEmpty(shadow, p);
        }
      }
      forall p | p in Content(left) ensures left[p] == plain[p] {
        if p in done {
          ShadowedNotEmpty(shadow, p);
        }
      }
    }
  }

  lemma UnchangedIffSameContent(host: Host, a: Folder, b: Folder)
    requires Clean(host, a) && a.state.Some? && b.state == a.state && b.hasShadow
    requires NoCollision(host.hashing, b.plain, a.plain)
    ensures Unchanged(host, b) <==> Content(b.plain) == Content(a.plain)
  {
    VersionHashIdentifiesContent(host.hashing, b.plain, a.plain);
  }

  /** A fetch that fails has written into the folder before it failed. The next watcher event takes
      those files for an edit and counts it, unless every file decrypted so far was there already. */
  lemma FailedFetchIsQuietIff(host: Host, reader: Ring, some: Tree, done: set<Path>, left: Tree, a: Folder, b: Folder)
    requires HalfFetched(host, reader, some, done, left, a, b) && Clean(host, a) && a.state.Some?
    requires AllVisible(done) && NoTemporaries(Collected(a.plain) + Shadowed(a.shadow + some))
    requires NoCollision(host.hashing, left, a.plain)
    ensures Unchanged(host, b) <==> Content(left) == Content(a.plain)
    ensures Unchanged(host, b) <==> BroughtNothing(host.cipher, reader, a.shadow + some, a.plain, done)
  {
    UnchangedIffSameContent(host, a, b);
    PartlyRestoredContentIff(host.cipher, reader, a.shadow + some, a.plain, done, left);
  }

  // ---- Rotation and the folder ----

  /** After a local change or a restart, every file of the shadow opens to the folder's content for
      whoever has the ring, and for want of a key for whoever stops short of its last epoch. */
  lemma AdoptedIsSealed(host: Host, ring: Ring, nonces: Path -> Nonce, before: Folder, clock: Clock, time: int,
                        after: Folder, reader: Ring, p: Path)
    requires Inverse(host.cipher) && ring != [] && |ring| < Pow256(EPOCH_LEN)
    requires Adopted(host, ring, nonces, before, clock, time, after) && p in Shadowed(after.shadow) && p != []
    ensures p in before.plain
    ensures ring <= reader ==> Opened(host.cipher, reader, after.shadow, p) == Ok(before.plain[p])
    ensures |reader| < |ring| ==> Opened(host.cipher, reader, after.shadow, p) == Err(NoKey(|ring|))
  {
    MirrorShadowsManifest(host.cipher, ring, nonces, before.plain, Collected(before.plain), before.shadow, after.shadow);
    MirrorIsSealed(host.cipher, ring, nonces, before.plain, Collected(before.plain), before.shadow, after.shadow);
    ShadowedIff(after.shadow, p);
    assert Decrypt(host.cipher, reader, after.shadow[BinPath(p)]) == Opened(host.cipher, reader, after.shadow, p);
  }

  /** The outcome of a local change check. */
  ghost predicate Checked(host: Host, ring: Ring, nonces: Path -> Nonce, now: int, before: Folder, after: Folder)
    requires ring != []
  {
    if Unchanged(host, before) then after == before
    else Adopted(host, ring, nonces, before, Bump(ClockOf(VersionOf(before.state)), host.me), now, after)
  }

  /** A file that a peer could open stays open to it across a key rotation that leaves it out if and
      only if the next check finds no local change: rotating encrypts nothing anew, and the first change
      closes the whole shadow at once. */
  lemma RotationClosesShadowIff(host: Host, ring: Ring, key: Key, nonces: Path -> Nonce, now: int,
                                before: Folder, after: Folder, reader: Ring, p: Path)
    requires Inverse(host.cipher) && |ring| + 1 < Pow256(EPOCH_LEN) && |reader| <= |ring|
    requires Checked(host, ring + [key], nonces, now, before, after)
    requires p != [] && p in Shadowed(before.shadow) && p in Shadowed(after.shadow)
    requires Opened(host.cipher, reader, before.shadow, p).Ok?
    ensures Opened(host.cipher, reader, after.shadow, p).Ok? <==> Unchanged(host, before)
  {
    if !Unchanged(host, before) {
      AdoptedIsSealed(host, ring + [key], nonces, before, Bump(ClockOf(VersionOf(before.state)), host.me), now, after, reader, p);
    }
  }

  // ---- Transfer round trip ----

  /** `files` is the shadow a sender made of its folder `plain` with ring `ring`. */
  ghost predicate SentFrom(c: Cipher, ring: Ring, nonces: Path -> Nonce, plain: Tree, files: Tree) {
    ring != [] && exists before: Tree :: Mirrors(c, ring, nonces, plain, Collected(plain), before, files)
  }

  lemma SentFilesOpen(c: Cipher, writer: Ring, nonces: Path -> Nonce, plain: Tree, files: Tree, shadow: Tree, reader: Ring, p: Path)
    requires Inverse(c) && SentFrom(c, writer, nonces, plain, files) && |writer| < Pow256(EPOCH_LEN)
    requires writer <= reader && p in Collected(plain)
    ensures Shadowed(files) == Collected(plain)
    ensures p in Shadowed(shadow + files) && Opened(c, reader, shadow + files, p) == Ok(plain[p])
  {
    var before: Tree :| Mirrors(c, writer, nonces, plain, Collected(plain), before, files);
    MirrorShadowsManifest(c, writer, nonces, plain, Collected(plain), before, files);
    ShadowedUnion(shadow, files);
    BinPathIsVisible(p);
    assert files[BinPath(p)] == Sealed(c, writer, nonces, p, plain[p]);
    assert (shadow + files)[BinPath(p)] == files[BinPath(p)];
    DecryptInvertsEncrypt(c, writer, reader, nonces(p), plain[p]);
  }

  lemma SentShadows(c: Cipher, ring: Ring, nonces: Path -> Nonce, plain: Tree, files: Tree)
    requires SentFrom(c, ring, nonces, plain, files)
    ensures Shadowed(files) == Collected(plain)
  {
    var before: Tree :| Mirrors(c, ring, nonces, plain, Collected(plain), before, files);
    MirrorShadowsManifest(c, ring, nonces, plain, Collected(plain), before, files);
  }

  lemma MixedShadowOpens(c: Cipher, writer: Ring, nonces: Path -> Nonce, plain: Tree, files: Tree, shadow: Tree, reader: Ring)
    requires Inverse(c) && SentFrom(c, writer, nonces, plain, files) && |writer| < Pow256(EPOCH_LEN)
    requires writer <= reader && AllOpen(c, reader, shadow)
    ensures AllOpen(c, reader, shadow + files)
  {
    SentShadows(c, writer, nonces, plain, files);
    ShadowedUnion(shadow, files);
    forall p | p in Shadowed(shadow + files) ensures Opened(c, reader, shadow + files, p).Ok? {
      ShadowedNotEmpty(shadow + files, p);
      if p in Collected(plain) {
        SentFilesOpen(c, writer, nonces, plain, files, shadow, reader, p);
      } else {
        OldFileStays(shadow, files, p);
        assert Opened(c, reader, shadow, p).Ok?;
      }
    }
  }

  lemma OldFileStays(shadow: Tree, files: Tree, p: Path)
    requires p in Shadowed(shadow + files) && p !in Shadowed(files)
    ensures p != [] && p in Shadowed(shadow) && BinPath(p) in shadow && (shadow + files)[BinPath(p)] == shadow[BinPath(p)]
  {
    ShadowedNotEmpty(shadow + files, p);
    ShadowedIff(shadow + files, p);
    ShadowedIff(files, p);
    ShadowedIff(shadow, p);
  }

  lemma CollectedAfterRestore(c: Cipher, ring: Ring, shadow: Tree, before: Tree)
    requires AllOpen(c, ring, shadow) && AllVisible(Shadowed(shadow))
    requires NoTemporaries(Collected(before) + Shadowed(shadow))
    ensures Collected(RestoredTree(c, ring, shadow, before)) == Collected(before) + Shadowed(shadow)
  {
    forall p | p in Collected(before) ensures !IsTemporary(shadow, p) {
    }
  }

  lemma OtherPathsUntouched(c: Cipher, ring: Ring, shadow: Tree, before: Tree, p: Path)
    requires AllOpen(c, ring, shadow)
    requires p in before && p !in Shadowed(shadow) && !IsTemporary(shadow, p)
    ensures p in RestoredTree(c, ring, shadow, before) && RestoredTree(c, ring, shadow, before)[p] == before[p]
  {
  }

  /** Fetching into a folder leaves the sender's files in place, byte for byte, beside the files that
      only the receiver has. */
  lemma RestoredContent(c: Cipher, writer: Ring, nonces: Path -> Nonce, plain: Tree, files: Tree, f: Folder, reader: Ring)
    requires Inverse(c) && SentFrom(c, writer, nonces, plain, files) && |writer| < Pow256(EPOCH_LEN)
    requires writer <= reader && AllOpen(c, reader, f.shadow)
    requires AllVisible(Shadowed(f.shadow)) && NoTemporaries(Collected(f.plain) + Shadowed(f.shadow + files))
    ensures AllOpen(c, reader, f.shadow + files)
    ensures var tree := RestoredTree(c, reader, f.shadow + files, f.plain);
      && Collected(tree) == Collected(f.plain) + Shadowed(f.shadow) + Collected(plain)
      && (forall p :: p in Collected(plain) ==> tree[p] == plain[p])
      && (forall p :: p in f.plain && p !in Shadowed(f.shadow + files) && !IsTemporary(f.shadow + files, p) ==>
            p in tree && tree[p] == f.plain[p])
  {
    MixedShadowOpens(c, writer, nonces, plain, files, f.shadow, reader);
    SentShadows(c, writer, nonces, plain, files);
    ShadowedUnion(f.shadow, files);
    CollectedAfterRestore(c, reader, f.shadow + files, f.plain);
    var tree := RestoredTree(c, reader, f.shadow + files, f.plain);
    forall p | p in Collected(plain) ensures p in tree && tree[p] == plain[p] {
      SentFilesOpen(c, writer, nonces, plain, files, f.shadow, reader, p);
    }
    forall p | p in f.plain && p !in Shadowed(f.shadow + files) && !IsTemporary(f.shadow + files, p)
      ensures p in tree && tree[p] == f.plain[p]
    {
      OtherPathsUntouched(c, reader, f.shadow + files, f.plain, p);
    }
  }

  /** A fetch of another peer's shadow is accepted exactly when the receiver has no file of its own,
      in its folder or left in its shadow, that the sender lacks. In particular a deletion at the
      sender makes every later fetch fail. */
  lemma FetchAcceptedIff(host: Host, writer: Ring, nonces: Path -> Nonce, sender: Tree, files: Tree,
                         f: Folder, reader: Ring, remote: Version)
    requires Inverse(host.cipher) && SentFrom(host.cipher, writer, nonces, sender, files) && |writer| < Pow256(EPOCH_LEN)
    requires writer <= reader && AllOpen(host.cipher, reader, f.shadow)
    requires AllVisible(Shadowed(f.shadow)) && NoTemporaries(Collected(f.plain) + Shadowed(f.shadow + files))
    requires remote.hash == VersionHash(host.hashing, sender)
    requires AllOpen(host.cipher, reader, f.shadow + files) ==>
      NoCollision(host.hashing, RestoredTree(host.cipher, reader, f.shadow + files, f.plain), sender)
    ensures Applies(host, reader, f, files, remote) <==> Collected(f.plain) + Shadowed(f.shadow) <= Collected(sender)
  {
    RestoredContent(host.cipher, writer, nonces, sender, files, f, reader);
    var tree := RestoredTree(host.cipher, reader, f.shadow + files, f.plain);
    VersionHashIdentifiesContent(host.hashing, tree, sender);
    SameContentIff(tree, sender, Collected(f.plain) + Shadowed(f.shadow));
  }

  lemma SameContentIff(tree: Tree, sender: Tree, own: set<Path>)
    requires Collected(tree) == own + Collected(sender)
    requires forall p :: p in Collected(sender) ==> tree[p] == sender[p]
    ensures Content(tree) == Content(sender) <==> own <= Collected(sender)
  {
    assert Collected(tree) == Content(tree).Keys && Collected(sender) == Content(sender).Keys;
    if own <= Collected(sender) {
      assert Collected(tree) == Collected(sender);
    }
  }
}
