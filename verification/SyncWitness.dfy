/** Why edits must carry growing stamps: a two-peer run in which one edit is stamped earlier than
    the edit it replaces, after which the peers hold different versions under equal clocks. */
module SyncWitness {
  import opened Results
  import opened Clocks
  import opened SyncState
  import opened SyncRun

  /** Two announces that each know an edit the other does not. */
  lemma ConcurrentReceive(local: Version, remote: Version, p: Peer, q: Peer)
    requires At(local.clock, p) > At(remote.clock, p) && At(remote.clock, q) > At(local.clock, q)
    requires local.time != remote.time
    ensures Receive(Some(local), AnnounceOf(remote), true) ==
      Some((if local.time > remote.time then local else remote).(clock := Join(local.clock, remote.clock)))
  {
    assert Ahead(local.clock, remote.clock) && Ahead(remote.clock, local.clock);
  }

  lemma EditStep(sys: System, p: Peer, hash: string, now: int, v: Version)
    requires p in sys.states && p in sys.edits
    requires LocalChange(sys.states[p], p, Some(hash), now) == Some(v)
    ensures Allowed(sys, Edit(p, Some(hash), now))
    ensures Next(sys, Edit(p, Some(hash), now)) == Store(sys, p, v, true)
  {
  }

  lemma DeliverStep(sys: System, p: Peer, remote: Version, v: Version)
    requires p in sys.states && p in sys.edits && remote in sys.net
    requires Receive(sys.states[p], AnnounceOf(remote), true) == Some(v)
    ensures Allowed(sys, Deliver(p, AnnounceOf(remote), true))
    ensures Next(sys, Deliver(p, AnnounceOf(remote), true)) == Store(sys, p, v, false)
  {
  }

  lemma TakeStep(sys: System, step: Step, rest: seq<Step>)
    requires Allowed(sys, step) && AllowedRun(Next(sys, step), rest)
    ensures AllowedRun(sys, [step] + rest)
    ensures Exec(sys, [step] + rest) == Exec(Next(sys, step), rest)
  {
    assert ([step] + rest)[1..] == rest;
  }

  /** Both peers edit; `b` then edits again with an earlier stamp. */
  lemma Edits(a: Peer, b: Peer, x: string, y: string) returns (steps: seq<Step>, last: System)
    requires a != b && x != y
    ensures var start := System(map[a := None, b := None], map[a := [], b := []], {});
      Initial(start) && AllowedRun(start, steps) && last == Exec(start, steps)
    ensures last.states == map[a := Some(Version(x, map[a := 1], 10)), b := Some(Version(y, map[b := 1], 20))]
    ensures last.edits.Keys == {a, b}
    ensures Version(x, map[a := 1], 10) in last.net && Version(y, map[b := 1], 20) in last.net
  {
    var start := System(map[a := None, b := None], map[a := [], b := []], {});
    var vx, vy := Version(x, map[a := 1], 10), Version(y, map[b := 1], 20);
    EditStep(start, a, x, 10, vx);
    var s1 := Store(start, a, vx, true);
    EditStep(s1, b, y, 20, vy);
    last := Store(s1, b, vy, true);
    TakeStep(s1, Edit(b, Some(y), 20), []);
    TakeStep(start, Edit(a, Some(x), 10), [Edit(b, Some(y), 20)] + []);
    steps := [Edit(a, Some(x), 10)] + ([Edit(b, Some(y), 20)] + []);
  }

  /** Peer `a` adopts `y`; peer `b` replaces `y` by the back-dated `z`. */
  lemma Backdate(sys: System, a: Peer, b: Peer, vx: Version, vy: Version, vz: Version) returns (steps: seq<Step>, last: System)
    requires a != b && vy.hash != vz.hash && vx.time == 10 && vy.time == 20 && vz.time == 5
    requires vx.clock == map[a := 1] && vy.clock == map[b := 1] && vz.clock == map[b := 2]
    requires sys.states == map[a := Some(vx), b := Some(vy)] && sys.edits.Keys == {a, b}
    requires vx in sys.net && vy in sys.net
    ensures AllowedRun(sys, steps) && last == Exec(sys, steps)
    ensures last.states == map[a := Some(vy.(clock := map[a := 1, b := 1])), b := Some(vz)]
    ensures last.edits.Keys == {a, b} && vx in last.net && vz in last.net
  {
    var ay := vy.(clock := map[a := 1, b := 1]);
    ConcurrentReceive(vx, vy, a, b);
    assert Join(vx.clock, vy.clock) == ay.clock;
    DeliverStep(sys, a, vy, ay);
    var s1 := Store(sys, a, ay, false);
    assert Bump(vy.clock, b) == vz.clock;
    EditStep(s1, b, vz.hash, 5, vz);
    last := Store(s1, b, vz, true);
    TakeStep(s1, Edit(b, Some(vz.hash), 5), []);
    TakeStep(sys, Deliver(a, AnnounceOf(vy), true), [Edit(b, Some(vz.hash), 5)] + []);
    steps := [Deliver(a, AnnounceOf(vy), true)] + ([Edit(b, Some(vz.hash), 5)] + []);
  }

  /** Two versions stamped in one order meet concurrently at a peer. */
  lemma Meet(sys: System, p: Peer, local: Version, remote: Version, kept: Version, q: Peer, r: Peer) returns (last: System)
    requires p in sys.states && p in sys.edits && sys.states[p] == Some(local) && remote in sys.net
    requires At(local.clock, q) > At(remote.clock, q) && At(remote.clock, r) > At(local.clock, r)
    requires local.time != remote.time
    requires kept == (if local.time > remote.time then local else remote).(clock := Join(local.clock, remote.clock))
    ensures AllowedRun(sys, [Deliver(p, AnnounceOf(remote), true)])
    ensures last == Exec(sys, [Deliver(p, AnnounceOf(remote), true)])
    ensures last == Store(sys, p, kept, false)
  {
    ConcurrentReceive(local, remote, q, r);
    DeliverStep(sys, p, remote, kept);
    last := Store(sys, p, kept, false);
    TakeStep(sys, Deliver(p, AnnounceOf(remote), true), []);
    assert [Deliver(p, AnnounceOf(remote), true)] + [] == [Deliver(p, AnnounceOf(remote), true)];
  }

  /** Peer `a` keeps `y` against `z`; peer `b` gives up `z` for `x`. */
  lemma Cross(sys: System, a: Peer, b: Peer, vx: Version, ay: Version, vz: Version) returns (steps: seq<Step>)
    requires a != b && vx.time == 10 && ay.time == 20 && vz.time == 5
    requires vx.clock == map[a := 1] && ay.clock == map[a := 1, b := 1] && vz.clock == map[b := 2]
    requires sys.states == map[a := Some(ay), b := Some(vz)] && sys.edits.Keys == {a, b}
    requires vx in sys.net && vz in sys.net
    ensures AllowedRun(sys, steps)
    ensures Exec(sys, steps).states ==
      map[a := Some(ay.(clock := map[a := 1, b := 2])), b := Some(vx.(clock := map[a := 1, b := 2]))]
  {
    assert Join(ay.clock, vz.clock) == map[a := 1, b := 2] == Join(vz.clock, vx.clock);
    var mid := Meet(sys, a, ay, vz, ay.(clock := map[a := 1, b := 2]), a, b);
    var last := Meet(mid, b, vz, vx, vx.(clock := map[a := 1, b := 2]), b, a);
    var first, second := [Deliver(a, AnnounceOf(vz), true)], [Deliver(b, AnnounceOf(vx), true)];
    ExecSplits(sys, first, second);
    steps := first + second;
  }

  lemma {:induction false} ExecSplits(sys: System, s: seq<Step>, t: seq<Step>)
    requires AllowedRun(sys, s) && AllowedRun(Exec(sys, s), t)
    ensures AllowedRun(sys, s + t) && Exec(sys, s + t) == Exec(Exec(sys, s), t)
    decreases |s|
  {
    if s == [] {
      assert s + t == t;
    } else {
      assert s + t == [s[0]] + (s[1..] + t);
      ExecSplits(Next(sys, s[0]), s[1..], t);
      TakeStep(sys, s[0], s[1..] + t);
    }
  }

  lemma SplitRun(a: Peer, b: Peer, x: string, y: string, z: string) returns (start: System, steps: seq<Step>)
    requires a != b && x != y && y != z
    ensures Initial(start) && AllowedRun(start, steps)
    ensures Exec(start, steps).states ==
      map[a := Some(Version(y, map[a := 1, b := 2], 20)), b := Some(Version(x, map[a := 1, b := 2], 10))]
  {
    start := System(map[a := None, b := None], map[a := [], b := []], {});
    var vx, vy, vz := Version(x, map[a := 1], 10), Version(y, map[b := 1], 20), Version(z, map[b := 2], 5);
    var first, mid := Edits(a, b, x, y);
    var second, late := Backdate(mid, a, b, vx, vy, vz);
    var third := Cross(late, a, b, vx, vy.(clock := map[a := 1, b := 1]), vz);
    ExecSplits(mid, second, third);
    ExecSplits(start, first, second + third);
    steps := first + (second + third);
  }

  /** Without the hypothesis on stamps, equal clocks do not identify a version: any two peers can
      be driven from the initial state to different versions under one clock. */
  lemma BackdatedEditSplitsPeers(a: Peer, b: Peer, x: string, y: string, z: string)
    requires a != b && x != y && y != z
    ensures exists start: System, steps: seq<Step> ::
      && Initial(start) && AllowedRun(start, steps)
      && Exec(start, steps).states ==
           map[a := Some(Version(y, map[a := 1, b := 2], 20)), b := Some(Version(x, map[a := 1, b := 2], 10))]
  {
    var start, steps := SplitRun(a, b, x, y, z);
  }
}
