/** auth.log on disk: every handler that changes the log leaves a file that reads back as the log,
    and so does the ticket of an invitation (src/daemon.rs, src/auth.rs, src/ipc.rs). */
module AuthDurability {
  import opened Results
  import opened AuthLog
  import opened AuthCausal
  import opened AuthOrder
  import opened AuthExchange
  import opened KeyRing
  import opened ShareAdmin

  /** An operation that continues a log with nothing pending is applied at once. */
  lemma NextIsApplied<C(!new)>(lib: Library<C>, log: Log<C>, op: SignedOp)
    requires Succeeds(lib) && Sound(lib, log) && log.pending == [] && GoodLog(lib, log.ops + [op])
    ensures var next := Process(lib, log, op).0;
      && Apply(lib, log, op) == (next, Applied)
      && Sound(lib, next) && next.ops == log.ops + [op] && next.pending == []
  {
    UnfoldLast(lib, log.ops, op);
    assert Ids(lib, log.pending) == {};
    ProcessIsSound(lib, log, op);
    var next := Process(lib, log, op).0;
    assert FirstReady(lib, Ids(lib, next.ops), next.pending) == 0;
  }

  lemma {:induction false} ReplayExtends<C(!new)>(lib: Library<C>, log: Log<C>, rest: seq<SignedOp>)
    requires Succeeds(lib) && Sound(lib, log) && log.pending == [] && GoodLog(lib, log.ops + rest)
    ensures ReplayAll(lib, log, rest).Ok?
    ensures var l := ReplayAll(lib, log, rest).value;
      l.ops == log.ops + rest && l.pending == [] && Replay(lib, log.ops + rest) == Some(l.crdt)
    decreases |rest|
  {
    if rest == [] {
      assert log.ops + rest == log.ops;
    } else {
      var op := rest[0];
      assert log.ops + rest == (log.ops + [op]) + rest[1..];
      PrefixIsGood(lib, log.ops + [op], rest[1..]);
      NextIsApplied(lib, log, op);
      ReplayExtends(lib, Process(lib, log, op).0, rest[1..]);
    }
  }

  /** Loading a saved log gives back the same operations in the same order and the same CRDT
      state, with nothing pending: a log the daemon saved is never reported as corrupt. The same
      holds for the peer that replays the log of an invitation. */
  lemma LoadOfSavedLog<C(!new)>(lib: Library<C>, log: Log<C>)
    requires Succeeds(lib) && Sound(lib, log)
    ensures Load(lib, Some(log.ops)) == Ok(Log(log.crdt, log.ops, []))
    ensures ReplayAll(lib, EmptyLog(lib), log.ops) == Ok(Log(log.crdt, log.ops, []))
  {
    assert [] + log.ops == log.ops;
    ReplayExtends(lib, EmptyLog(lib), log.ops);
  }

  lemma SnapshotUnfolds<C>(lib: Library<C>, log: Log<C>, ops: seq<SignedOp>)
    requires ops != []
    ensures var (next, verdict) := Apply(lib, log, ops[0]);
      var (last, n) := ApplyAll(lib, next, Snapshot(ops[1..]));
      ApplyAll(lib, log, Snapshot(ops)) == (last, n + if verdict == Applied then 1 else 0)
  {
    assert Snapshot(ops)[1..] == Snapshot(ops[1..]);
  }

  /** A peer that starts empty takes a snapshot entry by entry: each is applied at once, because the log
      lists every operation after its dependencies. */
  lemma {:induction false} SnapshotFeedsNewcomer<C(!new)>(lib: Library<C>, log: Log<C>, rest: seq<SignedOp>)
    requires Succeeds(lib) && Sound(lib, log) && log.pending == [] && GoodLog(lib, log.ops + rest)
    ensures var (last, n) := ApplyAll(lib, log, Snapshot(rest));
      && n == |rest| && last.ops == log.ops + rest && last.pending == []
      && Replay(lib, log.ops + rest) == Some(last.crdt)
    decreases |rest|
  {
    if rest == [] {
      assert log.ops + rest == log.ops;
    } else {
      var op := rest[0];
      assert log.ops + rest == (log.ops + [op]) + rest[1..];
      PrefixIsGood(lib, log.ops + [op], rest[1..]);
      NextIsApplied(lib, log, op);
      SnapshotUnfolds(lib, log, rest);
      SnapshotFeedsNewcomer(lib, Process(lib, log, op).0, rest[1..]);
    }
  }

  // ---- Any file ----

  /** A file whose operations all verify replays like a payload. */
  lemma {:induction false} ReplayIsPayload<C(!new)>(lib: Library<C>, log: Log<C>, ops: seq<SignedOp>)
    requires Succeeds(lib) && Injective(lib) && Healthy(lib, log)
    ensures if forall o :: o in ops ==> lib.verifies(o)
            then ReplayAll(lib, log, ops) == Ok(ApplyAll(lib, log, Snapshot(ops)).0)
            else ReplayAll(lib, log, ops) == Err(BadOp)
    decreases |ops|
  {
    if ops != [] {
      assert ops == [ops[0]] + ops[1..];
      ApplyDelivers(lib, log, ops[0]);
      if lib.verifies(ops[0]) {
        ReplayIsPayload(lib, Apply(lib, log, ops[0]).0, ops[1..]);
        assert Snapshot(ops)[1..] == Snapshot(ops[1..]);
      }
    }
  }

  lemma VerifiedDecodes<C>(lib: Library<C>, ops: seq<SignedOp>)
    requires forall o :: o in ops ==> lib.verifies(o)
    ensures Decoded(lib, Snapshot(ops)) == AsSet(ops)
  {
    forall o | o in ops ensures Some(o) in Snapshot(ops) {
      var i :| 0 <= i < |ops| && ops[i] == o;
      assert Snapshot(ops)[i] == Some(o);
    }
    assert forall o :: Some(o) in Snapshot(ops) ==> o in ops;
  }

  lemma {:induction false} DistinctSize(s: seq<SignedOp>)
    requires forall i, j :: 0 <= i < j < |s| ==> s[i] != s[j]
    ensures |AsSet(s)| == |s|
  {
    if s != [] {
      var before, last := s[..|s| - 1], s[|s| - 1];
      assert s == before + [last];
      DistinctSize(before);
      assert AsSet(s) == AsSet(before) + {last};
    }
  }

  /** The operations of a file that no causal order of the file reaches. */
  ghost function Unreached<C>(lib: Library<C>, all: set<SignedOp>): set<SignedOp> {
    set o | o in all && lib.id(o) !in Closure(lib, all, {})
  }

  lemma PendingAreUnreached<C>(lib: Library<C>, log: Log<C>)
    requires Injective(lib) && Healthy(lib, log)
    ensures Ids(lib, log.ops) == Closure(lib, Everything(log), {})
    ensures AsSet(log.pending) == Unreached(lib, Everything(log)) && |log.pending| == |Unreached(lib, Everything(log))|
  {
    SettledIsLeast(lib, log);
    ClosureIsLeast(lib, Everything(log));
    forall o | o in log.pending ensures lib.id(o) !in Ids(lib, log.ops) {
      var i :| 0 <= i < |log.pending| && log.pending[i] == o;
    }
    DistinctSize(log.pending);
  }

  /** Loading any file, in any order and with any repeats: it is refused for an operation that does not
      verify, else for the number of operations whose dependencies can never be met, and else gives a
      log of all its operations. */
  lemma LoadDecides<C(!new)>(lib: Library<C>, saved: seq<SignedOp>)
    requires Succeeds(lib) && Injective(lib)
    ensures var r, lost := Load(lib, Some(saved)), Unreached(lib, AsSet(saved));
      if exists o :: o in saved && !lib.verifies(o) then r == Err(BadOp)
      else if lost != {} then r == Err(UnmetDeps(|lost|))
      else r.Ok? && Healthy(lib, r.value) && r.value.pending == [] && AsSet(r.value.ops) == AsSet(saved)
    ensures Load(lib, None) == Ok(EmptyLog(lib))
  {
    ReplayIsPayload(lib, EmptyLog(lib), saved);
    if forall o :: o in saved ==> lib.verifies(o) {
      PayloadDelivers(lib, EmptyLog(lib), Snapshot(saved));
      VerifiedDecodes(lib, saved);
      var last := ApplyAll(lib, EmptyLog(lib), Snapshot(saved)).0;
      assert Everything(EmptyLog(lib)) == {};
      assert Everything(last) == AsSet(saved);
      PendingAreUnreached(lib, last);
      if last.pending == [] {
        assert last.ops + last.pending == last.ops;
      }
    }
  }

  // ---- Files the daemon wrote ----

  /** The file holds the applied operations, and loading it gives the log without what is pending. */
  ghost predicate Current<C>(lib: Library<C>, log: Log<C>, saved: Option<seq<SignedOp>>) {
    && Healthy(lib, log)
    && saved == (if log.ops == [] then None else Some(log.ops))
    && Load(lib, saved) == Ok(Log(log.crdt, log.ops, []))
  }

  lemma SavedIsCurrent<C(!new)>(lib: Library<C>, log: Log<C>, saved: Option<seq<SignedOp>>)
    requires Succeeds(lib) && Healthy(lib, log)
    requires saved == if log.ops == [] then None else Some(log.ops)
    ensures Current(lib, log, saved)
  {
    LoadOfSavedLog(lib, log);
    assert log.ops == [] ==> log.crdt == lib.empty;
  }

  /** The payload handler saves only when it counted a newly applied operation; the file stays
      current, because the log does not grow otherwise. */
  lemma HandlerKeepsFileCurrent<C(!new)>(lib: Library<C>, log: Log<C>, payload: seq<Option<SignedOp>>, saved: Option<seq<SignedOp>>)
    requires Succeeds(lib) && Injective(lib) && Sound(lib, log) && Settled(lib, log)
    requires saved == if log.ops == [] then None else Some(log.ops)
    ensures var (last, n) := ApplyAll(lib, log, payload);
      var after := if n > 0 then Some(last.ops) else saved;
      && after == (if last.ops == [] then None else Some(last.ops))
      && Load(lib, after) == Ok(Log(last.crdt, last.ops, []))
      && Current(lib, last, after) && log.ops <= last.ops
  {
    var (last, n) := ApplyAll(lib, log, payload);
    PayloadDelivers(lib, log, payload);
    SavedIsCurrent(lib, last, if n > 0 then Some(last.ops) else saved);
  }

  // ---- Any mix of handlers ----

  /** What the managing peer does to its log: a gossip payload, the three commands, a restart. */
  datatype Act =
    | Payload(entries: seq<Option<SignedOp>>)
    | Inviting(invitee: MemberId, role: AuthRole)
    | Revoking(target: MemberId, newKey: Key, random: nat -> nat)
    | Rotating(newKey: Key)
    | Restarting

  function Reload<C>(lib: Library<C>, a: Admin<C>): Admin<C> {
    match Load(lib, a.saved)
    case Ok(log) => a.(log := log)
    case Err(_) => a
  }

  function Receive<C>(lib: Library<C>, a: Admin<C>, entries: seq<Option<SignedOp>>): Admin<C> {
    var (log, n) := ApplyAll(lib, a.log, entries);
    a.(log := log, saved := if n > 0 then Some(log.ops) else a.saved)
  }

  function Perform<C>(site: Site<C>, a: Admin<C>, act: Act): Admin<C> {
    match act
    case Payload(entries) => Receive(site.lib, a, entries)
    case Inviting(invitee, role) => Invite(site, a, invitee, role).0
    case Revoking(target, newKey, random) => Revoke(site, a, target, newKey, random).0
    case Rotating(newKey) => RotateKey(a, newKey)
    case Restarting => Reload(site.lib, a)
  }

  /** The id of an operation about to be authored is new. */
  ghost predicate MayAuthor<C>(site: Site<C>, a: Admin<C>, action: Action) {
    NewTo(site.lib, a.log, site.lib.id(AuthoredOp(site.lib, a.log, site.me, site.group, action)))
  }

  /** The library succeeds, reports the heads, and signs what it verifies. */
  ghost predicate LawfulLibrary<C(!new)>(lib: Library<C>) {
    Succeeds(lib) && HeadsLaw(lib) && SignatureLaw(lib)
  }

  /** Commands are refused on an empty log, and when the member is there already or is not there. */
  ghost predicate MayPerform<C>(site: Site<C>, a: Admin<C>, act: Act) {
    match act
    case Inviting(invitee, role) =>
      a.log.ops != [] && !IsMember(site.lib, a.log, site.group, invitee) ==> MayAuthor(site, a, Add(invitee, role))
    case Revoking(target, _, _) =>
      a.log.ops != [] && IsMember(site.lib, a.log, site.group, target) ==> MayAuthor(site, a, Remove(target))
    case _ => true
  }

  ghost predicate MayPerformAll<C>(site: Site<C>, a: Admin<C>, acts: seq<Act>)
    decreases |acts|
  {
    acts == [] || (MayPerform(site, a, acts[0]) && MayPerformAll(site, Perform(site, a, acts[0]), acts[1..]))
  }

  function PerformAll<C>(site: Site<C>, a: Admin<C>, acts: seq<Act>): Admin<C>
    decreases |acts|
  {
    if acts == [] then a else PerformAll(site, Perform(site, a, acts[0]), acts[1..])
  }

  /** Saving right after authoring keeps the file current; authoring succeeds. */
  lemma AuthoringKeepsFileCurrent<C(!new)>(site: Site<C>, a: Admin<C>, action: Action)
    requires LawfulLibrary(site.lib) && Healthy(site.lib, a.log) && MayAuthor(site, a, action)
    ensures var op := AuthoredOp(site.lib, a.log, site.me, site.group, action);
      var (log, ok) := Process(site.lib, a.log, op);
      ok && log.ops == a.log.ops + [op] && Current(site.lib, log, Some(log.ops))
  {
    var op := AuthoredOp(site.lib, a.log, site.me, site.group, action);
    AuthoredMayHappen(site.lib, a.log, site.me, site.group, action);
    AuthoredKeepsInvariant(site.lib, a.log, op);
    ProcessIsSound(site.lib, a.log, op);
    SavedIsCurrent(site.lib, Process(site.lib, a.log, op).0, Some(a.log.ops + [op]));
  }

  lemma InviteKeepsFileCurrent<C(!new)>(site: Site<C>, a: Admin<C>, invitee: MemberId, role: AuthRole)
    requires LawfulLibrary(site.lib) && Current(site.lib, a.log, a.saved) && MayPerform(site, a, Inviting(invitee, role))
    ensures var (b, r) := Invite(site, a, invitee, role);
      && Current(site.lib, b.log, b.saved) && a.log.ops <= b.log.ops
      && (r.Ok? <==> a.log.ops != [] && !IsMember(site.lib, a.log, site.group, invitee))
  {
    if a.log.ops != [] && !IsMember(site.lib, a.log, site.group, invitee) {
      AuthoringKeepsFileCurrent(site, a, Add(invitee, role));
    }
  }

  lemma RevokeKeepsFileCurrent<C(!new)>(site: Site<C>, a: Admin<C>, target: MemberId, newKey: Key, random: nat -> nat)
    requires LawfulLibrary(site.lib) && Current(site.lib, a.log, a.saved)
    requires MayPerform(site, a, Revoking(target, newKey, random))
    ensures var b := Revoke(site, a, target, newKey, random).0;
      Current(site.lib, b.log, b.saved) && a.log.ops <= b.log.ops
  {
    if a.log.ops != [] && IsMember(site.lib, a.log, site.group, target) {
      AuthoringKeepsFileCurrent(site, a, Remove(target));
    }
  }

  /** A restart drops what was pending and nothing else. */
  lemma RestartKeepsFileCurrent<C(!new)>(lib: Library<C>, a: Admin<C>)
    requires Succeeds(lib) && Current(lib, a.log, a.saved)
    ensures Reload(lib, a) == a.(log := Log(a.log.crdt, a.log.ops, []))
    ensures Current(lib, Reload(lib, a).log, a.saved)
  {
    SavedIsCurrent(lib, Log(a.log.crdt, a.log.ops, []), a.saved);
  }

  lemma ActKeepsFileCurrent<C(!new)>(site: Site<C>, a: Admin<C>, act: Act)
    requires LawfulLibrary(site.lib) && Injective(site.lib)
    requires Current(site.lib, a.log, a.saved) && MayPerform(site, a, act)
    ensures var b := Perform(site, a, act); Current(site.lib, b.log, b.saved) && a.log.ops <= b.log.ops
  {
    match act
    case Payload(entries) => HandlerKeepsFileCurrent(site.lib, a.log, entries, a.saved);
    case Inviting(invitee, role) => InviteKeepsFileCurrent(site, a, invitee, role);
    case Revoking(target, newKey, random) => RevokeKeepsFileCurrent(site, a, target, newKey, random);
    case Rotating(_) =>
    case Restarting => RestartKeepsFileCurrent(site.lib, a);
  }

  /** After any mix of payloads, invitations, revocations, key rotations and restarts, successful or
      refused, auth.log holds the applied operations and loads back to them; none is ever lost. */
  lemma {:induction false} FileStaysCurrent<C(!new)>(site: Site<C>, a: Admin<C>, acts: seq<Act>)
    requires LawfulLibrary(site.lib) && Injective(site.lib)
    requires Current(site.lib, a.log, a.saved) && MayPerformAll(site, a, acts)
    ensures var b := PerformAll(site, a, acts); Current(site.lib, b.log, b.saved) && a.log.ops <= b.log.ops
    decreases |acts|
  {
    if acts != [] {
      ActKeepsFileCurrent(site, a, acts[0]);
      FileStaysCurrent(site, Perform(site, a, acts[0]), acts[1..]);
    }
  }

  /** The log of a new share: the creator's own group, with the creator as its owner. */
  function Founded<C>(site: Site<C>): Log<C> {
    var log := EmptyLog(site.lib);
    Process(site.lib, log, AuthoredOp(site.lib, log, site.me, site.group, Create([(site.me, Owner)]))).0
  }

  /** From the creation of a share on, auth.log is current. */
  lemma ShareStaysCurrent<C(!new)>(site: Site<C>, a: Admin<C>, acts: seq<Act>)
    requires LawfulLibrary(site.lib) && Injective(site.lib)
    requires a.log == Founded(site) && a.saved == Some(a.log.ops) && MayPerformAll(site, a, acts)
    ensures var b := PerformAll(site, a, acts);
      b.log.ops != [] && Current(site.lib, b.log, b.saved)
  {
    AuthoringKeepsFileCurrent(site, a.(log := EmptyLog(site.lib)), Create([(site.me, Owner)]));
    FileStaysCurrent(site, a, acts);
  }

  // ---- Tickets ----

  /** The ticket of an invitation carries the ring and a log that replays, on the empty log the
      invitee starts from, to the inviter's own new log. The invitee therefore passes the join-time
      membership check exactly when the inviter lists it, and the file it saves is current. */
  lemma InviteeFindsItself<C(!new)>(site: Site<C>, a: Admin<C>, invitee: MemberId, role: AuthRole)
    requires LawfulLibrary(site.lib) && Current(site.lib, a.log, a.saved) && MayPerform(site, a, Inviting(invitee, role))
    requires Invite(site, a, invitee, role).1.Ok?
    ensures var (b, r) := Invite(site, a, invitee, role);
      var joined := Log(b.log.crdt, b.log.ops, []);
      && r.value.keys == a.ring
      && b.log.ops == a.log.ops + [AuthoredOp(site.lib, a.log, site.me, site.group, Add(invitee, role))]
      && ReplayAll(site.lib, EmptyLog(site.lib), r.value.authLog) == Ok(joined)
      && (IsMember(site.lib, joined, site.group, invitee) <==> IsMember(site.lib, b.log, site.group, invitee))
      && Current(site.lib, joined, Some(joined.ops))
  {
    InviteKeepsFileCurrent(site, a, invitee, role);
    AuthoringKeepsFileCurrent(site, a, Add(invitee, role));
    var b := Invite(site, a, invitee, role).0;
    LoadOfSavedLog(site.lib, b.log);
    SavedIsCurrent(site.lib, Log(b.log.crdt, b.log.ops, []), Some(b.log.ops));
  }
}
