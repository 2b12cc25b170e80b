/** One peer's view of a share's version: the decisions of the sync loop (src/daemon.rs).
    The torrent fields of the daemon's share state play no part in these decisions. */
module SyncState {
  import opened Results
  import opened Orders
  import opened Clocks

  /** What last-writer-wins compares. */
  datatype Stamp = Stamp(time: int, hash: string)

  datatype Version = Version(hash: string, clock: Clock, time: int) {
    function Mark(): Stamp {
      Stamp(time, hash)
    }
  }

  /** The optional fields are absent in announces of seeds and of older releases. */
  datatype Announce = Announce(versionHash: Option<string>, clock: Option<Clock>, timestamp: Option<int>)

  function AnnounceOf(v: Version): Announce {
    Announce(Some(v.hash), Some(v.clock), Some(v.time))
  }

  function Announced(a: Announce): Option<Version> {
    if a.versionHash.Some? && a.clock.Some? && a.timestamp.Some? then
      Some(Version(a.versionHash.value, a.clock.value, a.timestamp.value))
    else None
  }

  predicate Older(a: Stamp, b: Stamp) {
    a.time < b.time || (a.time == b.time && StringLess(a.hash, b.hash))
  }

  function LwwWeWin(localTime: int, localHash: string, remoteTime: int, remoteHash: string): bool {
    if localTime > remoteTime then true
    else if localTime < remoteTime then false
    else StringLess(remoteHash, localHash)
  }

  lemma OlderIsTotal()
    ensures forall a: Stamp :: !Older(a, a)
    ensures forall a: Stamp, b: Stamp :: Older(a, b) || Older(b, a) || a == b
    ensures forall a: Stamp, b: Stamp, c: Stamp :: Older(a, b) && Older(b, c) ==> Older(a, c)
  {
    StringOrderTotal();
  }

  /** Two peers holding different versions never both win and never both lose. */
  lemma LwwPicksOneWinner(a: Version, b: Version)
    ensures a.Mark() != b.Mark() ==>
      (LwwWeWin(a.time, a.hash, b.time, b.hash) <==> !LwwWeWin(b.time, b.hash, a.time, a.hash))
    ensures LwwWeWin(a.time, a.hash, b.time, b.hash) <==> Older(b.Mark(), a.Mark())
    ensures Older(b.Mark(), a.Mark()) <==> b.time < a.time || (b.time == a.time && StringLess(b.hash, a.hash))
  {
    StringOrderTotal();
  }

  function ClockOf(current: Option<Version>): Clock {
    if current.Some? then current.value.clock else map[]
  }

  /** `content` is the hash of the share root, absent when the root is empty.
      The result is the new version, absent when nothing changed. */
  function LocalChange(current: Option<Version>, me: Peer, content: Option<string>, now: int): Option<Version> {
    if content.None? then None
    else if current.Some? && current.value.hash == content.value then None
    else Some(Version(content.value, Bump(ClockOf(current), me), now))
  }

  function Reconcile(persisted: Option<Version>, me: Peer, content: Option<string>, now: int): Option<Version> {
    match (persisted, content)
    case (_, None) => None
    case (None, Some(hash)) => Some(Version(hash, Bump(map[], me), now))
    case (Some(v), Some(hash)) =>
      if v.hash == hash then Some(v) else Some(Version(hash, Bump(v.clock, me), now))
  }

  datatype Decision = Ignore | KeepLocal | Fetch

  function Decide(current: Option<Version>, remote: Version): Decision {
    match current
    case None => Fetch
    case Some(local) =>
      match Relate(local.clock, remote.clock)
      case Equal => Ignore
      case SelfDominates => Ignore
      case OtherDominates => Fetch
      case Concurrent => if LwwWeWin(local.time, local.hash, remote.time, remote.hash) then KeepLocal else Fetch
  }

  /** The version a peer holds after keeping or fetching; the clock is merged either way. */
  function Adopt(current: Option<Version>, remote: Version): Version {
    Version(remote.hash, Join(ClockOf(current), remote.clock), remote.time)
  }

  /** The version that replaces the current one and is re-announced, absent when the
      announce is ignored or the fetch fails. */
  function Receive(current: Option<Version>, a: Announce, fetched: bool): Option<Version> {
    match Announced(a)
    case None => None
    case Some(remote) =>
      match Decide(current, remote)
      case Ignore => None
      case KeepLocal => Some(current.value.(clock := Join(current.value.clock, remote.clock)))
      case Fetch => if fetched then Some(Adopt(current, remote)) else None
  }

  /** `m` has the greater of the two counters for every peer. */
  ghost predicate IsMerge(c: Clock, d: Clock, m: Clock) {
    forall p :: At(m, p) == if At(d, p) > At(c, p) then At(d, p) else At(c, p)
  }

  /** What the arrival of `remote` must lead to, by the order of clocks and stamps. A clock that ours
      dominates or equals changes nothing. One that dominates ours is taken over whatever the stamps
      say, and so is any when we hold nothing. Between concurrent ones the greater stamp decides. */
  ghost predicate Resolves(current: Option<Version>, remote: Version, fetched: bool, outcome: Option<Version>) {
    if current.Some? && Leq(remote.clock, current.value.clock) then
      outcome == None
    else if current.Some? && !Leq(current.value.clock, remote.clock) && Older(remote.Mark(), current.value.Mark()) then
      outcome.Some? && outcome.value.Mark() == current.value.Mark() && IsMerge(current.value.clock, remote.clock, outcome.value.clock)
    else if fetched then
      outcome.Some? && outcome.value.Mark() == remote.Mark() && IsMerge(ClockOf(current), remote.clock, outcome.value.clock)
    else
      outcome == None
  }

  /** The handling of an announce, with no hypothesis on stamps; one that lacks a field changes nothing. */
  ghost predicate Heard(current: Option<Version>, a: Announce, fetched: bool, outcome: Option<Version>) {
    match a
    case Announce(Some(hash), Some(clock), Some(time)) => Resolves(current, Version(hash, clock, time), fetched, outcome)
    case _ => outcome == None
  }

  lemma ReceiveResolves(current: Option<Version>, a: Announce, fetched: bool)
    ensures Heard(current, a, fetched, Receive(current, a, fetched))
  {
    if current.Some? && Announced(a).Some? {
      CompareDecidesOrder(current.value.clock, Announced(a).value.clock);
      LwwPicksOneWinner(current.value, Announced(a).value);
    }
  }

  /** A local change is counted exactly when the root has content other than the current version's;
      it raises the own counter by one, and no other. */
  ghost predicate CountsEdit(current: Option<Version>, me: Peer, content: Option<string>, now: int, outcome: Option<Version>) {
    && (outcome.Some? <==> content.Some? && (current.None? || current.value.hash != content.value))
    && (outcome.Some? ==>
          && outcome.value.hash == content.value && outcome.value.time == now
          && forall p :: At(outcome.value.clock, p) == At(ClockOf(current), p) + if p == me then 1 else 0)
  }

  lemma LocalChangeCounts(current: Option<Version>, me: Peer, content: Option<string>, now: int)
    ensures CountsEdit(current, me, content, now, LocalChange(current, me, content, now))
  {
  }

  /** A restart over an empty root holds nothing; over known content it resumes the persisted version
      as it is; over any other content it counts an edit on top of what was persisted. */
  ghost predicate Resumes(persisted: Option<Version>, me: Peer, content: Option<string>, now: int, outcome: Option<Version>) {
    if content.None? then outcome == None
    else if persisted.Some? && persisted.value.hash == content.value then outcome == persisted
    else CountsEdit(persisted, me, content, now, outcome)
  }

  lemma ReconcileResumes(persisted: Option<Version>, me: Peer, content: Option<string>, now: int)
    ensures Resumes(persisted, me, content, now, Reconcile(persisted, me, content, now))
  {
  }

  /** The state a share task keeps between events, with the copy in `state.json`. */
  class SyncTask {
    const me: Peer
    var state: Option<Version>
    var persisted: Option<Version>

    ghost predicate Valid()
      reads this
    {
      state.Some? ==> state == persisted
    }

    constructor (me: Peer)
      ensures Valid() && this.me == me && state == None && persisted == None
    {
      this.me := me;
      state := None;
      persisted := None;
    }

    method Restart(content: Option<string>, now: int) returns (published: Option<Version>)
      modifies this
      ensures Valid()
      ensures state == published == Reconcile(old(persisted), me, content, now)
      ensures Resumes(old(persisted), me, content, now, published)
      ensures persisted == if state.Some? then state else old(persisted)
    {
      ReconcileResumes(persisted, me, content, now);
      state := None;
      if content.None? {
        return None;
      }
      if persisted.None? {
        var clock := new VectorClock();
        clock.Increment(me);
        state := Some(Version(content.value, clock.entries, now));
        persisted := state;
      } else if persisted.value.hash == content.value {
        state := persisted;
      } else {
        var clock := new VectorClock();
        clock.entries := persisted.value.clock;
        clock.Increment(me);
        state := Some(Version(content.value, clock.entries, now));
        persisted := state;
      }
      return state;
    }

    method WatcherEvent(content: Option<string>, now: int) returns (published: Option<Version>)
      requires Valid()
      modifies this
      ensures Valid()
      ensures published == LocalChange(old(state), me, content, now)
      ensures CountsEdit(old(state), me, content, now, published)
      ensures state == if published.Some? then published else old(state)
      ensures persisted == if published.Some? then published else old(persisted)
    {
      LocalChangeCounts(state, me, content, now);
      if content.None? || (state.Some? && state.value.hash == content.value) {
        return None;
      }
      var clock := new VectorClock();
      if state.Some? {
        clock.entries := state.value.clock;
      }
      clock.Increment(me);
      state := Some(Version(content.value, clock.entries, now));
      persisted := state;
      return state;
    }

    method OnAnnounce(a: Announce, fetched: bool) returns (published: Option<Version>)
      requires Valid()
      modifies this
      ensures Valid()
      ensures published == Receive(old(state), a, fetched)
      ensures Heard(old(state), a, fetched, published)
      ensures state == if published.Some? then published else old(state)
      ensures persisted == if published.Some? then published else old(persisted)
    {
      ReceiveResolves(state, a, fetched);
      if a.versionHash.None? || a.clock.None? || a.timestamp.None? {
        return None;
      }
      var remoteHash, remoteTime := a.versionHash.value, a.timestamp.value;
      var remoteClock := new VectorClock();
      remoteClock.entries := a.clock.value;
      var clock := new VectorClock();
      if state.Some? {
        clock.entries := state.value.clock;
        var relation := clock.Compare(remoteClock);
        if relation == Equal || relation == SelfDominates {
          return None;
        }
        if relation == Concurrent {
          var weWin := LwwWeWin(state.value.time, state.value.hash, remoteTime, remoteHash);
          if weWin {
            clock.Merge(remoteClock);
            state := Some(state.value.(clock := clock.entries));
            persisted := state;
            return state;
          }
        }
      }
      if !fetched {
        return None;
      }
      clock.Merge(remoteClock);
      state := Some(Version(remoteHash, clock.entries, remoteTime));
      persisted := state;
      return state;
    }
  }

  /** A restart over a non-empty root acts on the persisted version exactly as a watcher event would. */
  lemma RestartIsLocalChange(v: Version, me: Peer, content: string, now: int)
    ensures Reconcile(Some(v), me, Some(content), now) ==
            match LocalChange(Some(v), me, Some(content), now) case None => Some(v) case Some(w) => Some(w)
    ensures Reconcile(None, me, Some(content), now) == LocalChange(None, me, Some(content), now)
  {
  }

  /** A restart keeps the clock exactly when the root is not empty: over an empty root the
      daemon forgets the persisted clock and later reuses its counters. */
  lemma RestartKeepsClockIff(v: Version, me: Peer, content: Option<string>, now: int)
    requires exists p :: At(v.clock, p) > 0
    ensures Leq(v.clock, ClockOf(Reconcile(Some(v), me, content, now))) <==> content.Some?
  {
    var p :| At(v.clock, p) > 0;
    assert At(map[], p) == 0;
  }

  /** An announce that replaces the state merges its clock into ours, which raises the clock strictly
      unless we had no version and the announced clock counts nothing. */
  lemma ReceiveRaisesClock(current: Option<Version>, a: Announce, fetched: bool)
    requires Receive(current, a, fetched).Some?
    ensures Announced(a).Some?
    ensures var remote, v := Announced(a).value, Receive(current, a, fetched).value;
      && v.clock == Join(ClockOf(current), remote.clock)
      && Leq(ClockOf(current), v.clock)
      && (!Leq(v.clock, ClockOf(current)) <==> current.Some? || exists p :: At(remote.clock, p) > 0)
  {
    var remote := Announced(a).value;
    var c := ClockOf(current);
    MergeIsLeastUpperBound(c, remote.clock, c);
    MergeRaisesIffAhead(c, remote.clock);
    if current.None? {
      JoinWithNothing(remote.clock);
    }
  }

  lemma JoinWithNothing(d: Clock)
    ensures !Leq(Join(map[], d), map[]) <==> exists p :: At(d, p) > 0
  {
    assert forall p :: At(map[], p) == 0 && At(Join(map[], d), p) == At(d, p);
  }
}
