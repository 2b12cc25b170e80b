/** What the managing peer's commands do to a share is a run of the rotation protocol: the theorems on
    runs are about these commands (src/daemon.rs). */
module ShareRefinement {
  import opened Results
  import opened KeyRing
  import opened Rotation
  import opened RotationRun
  import opened AuthDurability
  import AuthLog
  import AuthCausal
  import Admin = ShareAdmin

  /** An operation authored on top of everything applied takes effect as it says. */
  ghost predicate MembersFollow<C(!new)>(site: Admin.Site<C>) {
    forall c: C, op: AuthLog.SignedOp {:trigger site.lib.process(c, op)} ::
      op.deps == site.lib.heads(c) && op.group == site.group && site.lib.process(c, op).Some? ==>
        TakesEffect(site, c, op.action, site.lib.process(c, op).value)
  }

  ghost predicate TakesEffect<C>(site: Admin.Site<C>, before: C, action: AuthLog.Action, after: C) {
    match action
    case Add(m, _) => forall q :: Admin.Listed(site, after, q) <==> Admin.Listed(site, before, q) || q == m
    case Remove(m) => forall q :: Admin.Listed(site, after, q) <==> Admin.Listed(site, before, q) && q != m
    case Create(_) => true
  }

  /** The share as the managing peer holds it: its ring is the rotator's, the members are those of its
      log, and its directory holds the published rotations. */
  ghost predicate Manages<C>(site: Admin.Site<C>, a: Admin.Admin<C>, sh: Share) {
    && Started(sh) && site.me == sh.rotator && a.ring == sh.rings[sh.rotator]
    && (forall m :: m in sh.members <==> Admin.Listed(site, a.log.crdt, m))
    && a.dir.Keys == sh.issued.Keys && forall e :: e in a.dir ==> a.dir[e] == sh.issued[e].rot
  }

  /** The commands of a manager that does not revoke itself; gossip aside. */
  ghost predicate Command<C>(site: Admin.Site<C>, act: Act) {
    !act.Payload? && (act.Revoking? ==> act.target != site.me)
  }

  /** The protocol step behind a command, if it is not refused. */
  function StepOf<C>(site: Admin.Site<C>, a: Admin.Admin<C>, act: Act): seq<Step> {
    match act
    case Inviting(m, role) =>
      if Admin.Invite(site, a, m, role).1.Ok? then [Invite(m)] else []
    case Revoking(target, newKey, random) =>
      var (b, r) := Admin.Revoke(site, a, target, newKey, random);
      if r.Ok? || r == Err(Admin.BadRecipient) then
        [Revoke(target, Admin.Without(site.lib.members(b.log.crdt, site.group), target), newKey, random)]
      else []
    case Rotating(newKey) => [RotateKey(newKey)]
    case _ => []
  }

  function StepsOf<C>(site: Admin.Site<C>, a: Admin.Admin<C>, acts: seq<Act>): seq<Step>
    decreases |acts|
  {
    if acts == [] then []
    else StepOf(site, a, acts[0]) + StepsOf(site, Perform(site, a, acts[0]), acts[1..])
  }

  /** A command is refused and changes nothing of the share, or it is an allowed step that leads to the
      share the manager holds afterwards. */
  ghost predicate Simulates<C>(cr: Crypto, site: Admin.Site<C>, a: Admin.Admin<C>, act: Act, sh: Share) {
    var b, steps := Perform(site, a, act), StepOf(site, a, act);
    if steps == [] then Manages(site, b, sh)
    else Allowed(cr, sh, steps[0]) && Manages(site, b, Next(cr, sh, steps[0]))
  }

  lemma InviteSimulates<C(!new)>(cr: Crypto, site: Admin.Site<C>, a: Admin.Admin<C>, m: MemberId, role: AuthRole, sh: Share)
    requires MembersFollow(site) && LawfulLibrary(site.lib) && Manages(site, a, sh)
    requires Current(site.lib, a.log, a.saved) && MayPerform(site, a, Inviting(m, role))
    ensures Simulates(cr, site, a, Inviting(m, role), sh)
    ensures var (b, r) := Admin.Invite(site, a, m, role);
      r.Ok? ==> Allowed(cr, sh, Invite(m)) && (m, r.value.keys) in Next(cr, sh, Invite(m)).tickets
  {
    Admin.InviteDecides(site, a, m, role);
    InviteKeepsFileCurrent(site, a, m, role);
  }

  /** The members that remain, as the handler lists them after the removal. */
  lemma RemainingMembers<C(!new)>(site: Admin.Site<C>, a: Admin.Admin<C>, target: MemberId, after: C, sh: Share)
    requires Manages(site, a, sh) && TakesEffect(site, a.log.crdt, AuthLog.Remove(target), after)
    ensures forall m :: m in Admin.Without(site.lib.members(after, site.group), target) <==> m in sh.members && m != target
  {
    var members := site.lib.members(after, site.group);
    forall m ensures m in Admin.Without(members, target) <==> m in sh.members && m != target {
      Admin.WithoutDropsExactlyTarget(members, target, m);
      assert Admin.Listed(site, after, m) <==> exists entry :: entry in members && entry.0 == m;
    }
  }

  /** What the handler leaves behind once the library has taken the removal. */
  ghost predicate Revoked<C>(site: Admin.Site<C>, a: Admin.Admin<C>, b: Admin.Admin<C>, remaining: seq<MemberId>, key: Key, random: nat -> nat) {
    b.ring == a.ring + [key] &&
    match Build(site.box, random, site.me, |a.ring| + 1, key, remaining)
    case None => b.dir == a.dir
    case Some(rot) => b.dir == a.dir[|a.ring| + 1 := rot]
  }

  lemma RevokedManages<C>(cr: Crypto, site: Admin.Site<C>, a: Admin.Admin<C>, b: Admin.Admin<C>, step: Step, sh: Share)
    requires Manages(site, a, sh) && cr.box == site.box && step.Revoke? && Allowed(cr, sh, step)
    requires Revoked(site, a, b, step.remaining, step.key, step.random)
    requires forall m :: Admin.Listed(site, b.log.crdt, m) <==> m in sh.members && m != step.target
    ensures Manages(site, b, Next(cr, sh, step))
  {
    var rotated, i := RevokeShape(cr, sh, step);
    assert i.None? ==> b.dir == a.dir;
    assert i.Some? ==> b.dir == a.dir[i.value.rot.epoch := i.value.rot];
    if i.Some? {
      DirectoryFollows(a.dir, sh.issued, i.value);
    }
  }

  lemma DirectoryFollows(dir: map<nat, SignedRotation>, issued: map<nat, Issue>, i: Issue)
    requires dir.Keys == issued.Keys && (forall e :: e in dir ==> dir[e] == issued[e].rot)
    ensures var (d, s) := (dir[i.rot.epoch := i.rot], issued[i.rot.epoch := i]);
      d.Keys == s.Keys && forall e :: e in d ==> d[e] == s[e].rot
  {
  }

  lemma HandlerRevokes<C(!new)>(site: Admin.Site<C>, a: Admin.Admin<C>, target: MemberId, key: Key, random: nat -> nat)
    requires LawfulLibrary(site.lib) && Current(site.lib, a.log, a.saved)
    requires MayPerform(site, a, Revoking(target, key, random)) && a.log.ops != [] && AuthLog.IsMember(site.lib, a.log, site.group, target)
    ensures var (b, r) := Admin.Revoke(site, a, target, key, random);
      var op := AuthLog.AuthoredOp(site.lib, a.log, site.me, site.group, AuthLog.Remove(target));
      && (r.Ok? || r == Err(Admin.BadRecipient))
      && site.lib.process(a.log.crdt, op) == Some(b.log.crdt)
      && Revoked(site, a, b, Admin.Without(site.lib.members(b.log.crdt, site.group), target), key, random)
  {
    AuthoringKeepsFileCurrent(site, a, AuthLog.Remove(target));
  }

  lemma RevokeSimulates<C(!new)>(cr: Crypto, site: Admin.Site<C>, a: Admin.Admin<C>, target: MemberId, newKey: Key,
                                 random: nat -> nat, sh: Share)
    requires MembersFollow(site) && LawfulLibrary(site.lib) && Manages(site, a, sh) && cr.box == site.box
    requires Current(site.lib, a.log, a.saved) && MayPerform(site, a, Revoking(target, newKey, random)) && target != site.me
    ensures Simulates(cr, site, a, Revoking(target, newKey, random), sh)
  {
    if a.log.ops != [] && AuthLog.IsMember(site.lib, a.log, site.group, target) {
      HandlerRevokes(site, a, target, newKey, random);
      var b := Admin.Revoke(site, a, target, newKey, random).0;
      assert TakesEffect(site, a.log.crdt, AuthLog.Remove(target), b.log.crdt);
      RemainingMembers(site, a, target, b.log.crdt, sh);
      assert Admin.Listed(site, a.log.crdt, target);
      var remaining := Admin.Without(site.lib.members(b.log.crdt, site.group), target);
      RevokedManages(cr, site, a, b, Revoke(target, remaining, newKey, random), sh);
    }
  }

  lemma ActSimulates<C(!new)>(cr: Crypto, site: Admin.Site<C>, a: Admin.Admin<C>, act: Act, sh: Share)
    requires MembersFollow(site) && LawfulLibrary(site.lib) && AuthCausal.Injective(site.lib) && cr.box == site.box
    requires Manages(site, a, sh) && Current(site.lib, a.log, a.saved) && MayPerform(site, a, act) && Command(site, act)
    ensures Simulates(cr, site, a, act, sh)
  {
    match act
    case Inviting(m, role) => InviteSimulates(cr, site, a, m, role, sh);
    case Revoking(target, newKey, random) => RevokeSimulates(cr, site, a, target, newKey, random, sh);
    case Rotating(_) =>
    case Restarting => RestartKeepsFileCurrent(site.lib, a);
  }

  /** Any sequence of commands, refused or not, and restarts is an allowed run of the protocol, and ends
      with the share that the manager holds. */
  lemma {:induction false} CommandsAreRun<C(!new)>(cr: Crypto, site: Admin.Site<C>, a: Admin.Admin<C>, acts: seq<Act>, sh: Share)
    requires MembersFollow(site) && LawfulLibrary(site.lib) && AuthCausal.Injective(site.lib) && cr.box == site.box
    requires Manages(site, a, sh) && Current(site.lib, a.log, a.saved) && MayPerformAll(site, a, acts)
    requires forall act :: act in acts ==> Command(site, act)
    ensures MayRun(cr, sh, StepsOf(site, a, acts))
    ensures Manages(site, PerformAll(site, a, acts), Exec(cr, sh, StepsOf(site, a, acts)))
    decreases |acts|
  {
    if acts != [] {
      var b, first := Perform(site, a, acts[0]), StepOf(site, a, acts[0]);
      var rest := StepsOf(site, b, acts[1..]);
      ActSimulates(cr, site, a, acts[0], sh);
      ActKeepsFileCurrent(site, a, acts[0]);
      if first == [] {
        CommandsAreRun(cr, site, b, acts[1..], sh);
        assert first + rest == rest;
      } else {
        CommandsAreRun(cr, site, b, acts[1..], Next(cr, sh, first[0]));
        assert (first + rest)[1..] == rest;
      }
    }
  }
}
