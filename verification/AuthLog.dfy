/** The causally ordered log of membership operations (src/auth.rs). */
module AuthLog {
  import opened Results

  /** A raw 32-byte public key, read as a number. */
  type MemberId = nat

  type OpId = nat

  datatype AuthRole = Owner | Writer | Reader

  datatype Action =
    | Create(initial: seq<(MemberId, AuthRole)>)
    | Add(member: MemberId, role: AuthRole)
    | Remove(member: MemberId)

  datatype SignedOp = SignedOp(author: MemberId, deps: seq<OpId>, group: MemberId, action: Action, signature: nat)

  /** What the log takes from libraries: the membership CRDT with states of type `C`, the
      content hash that names an operation, and signatures. */
  datatype Library<!C> = Library(
    empty: C,
    process: (C, SignedOp) -> Option<C>,
    heads: C -> seq<OpId>,
    members: (C, MemberId) -> seq<(MemberId, AuthRole)>,
    id: SignedOp -> OpId,
    verifies: SignedOp -> bool,
    sign: (MemberId, seq<OpId>, MemberId, Action) -> nat)

  datatype Log<C> = Log(crdt: C, ops: seq<SignedOp>, pending: seq<SignedOp>)

  function EmptyLog<C>(lib: Library<C>): Log<C> {
    Log(lib.empty, [], [])
  }

  function Ids<C>(lib: Library<C>, ops: seq<SignedOp>): set<OpId> {
    set o | o in ops :: lib.id(o)
  }

  predicate Ready<C>(lib: Library<C>, known: set<OpId>, op: SignedOp) {
    forall d | d in op.deps :: d in known
  }

  /** The position of the first operation whose dependencies are known, or the length. */
  function FirstReady<C>(lib: Library<C>, known: set<OpId>, pending: seq<SignedOp>): (i: nat)
    ensures i <= |pending|
    ensures i < |pending| ==> Ready(lib, known, pending[i])
    ensures forall j :: 0 <= j < i ==> !Ready(lib, known, pending[j])
  {
    if pending == [] || Ready(lib, known, pending[0]) then 0
    else 1 + FirstReady(lib, known, pending[1..])
  }

  /** The library is given an empty CRDT to put back: a failure loses the CRDT and keeps the log. */
  function Process<C>(lib: Library<C>, log: Log<C>, op: SignedOp): (r: (Log<C>, bool))
    ensures r.0.pending == log.pending
  {
    match lib.process(log.crdt, op)
    case Some(next) => (Log(next, log.ops + [op], log.pending), true)
    case None => (Log(lib.empty, log.ops, log.pending), false)
  }

  function TakeOut<C>(log: Log<C>, i: nat): (rest: Log<C>)
    requires i < |log.pending|
    ensures |rest.pending| == |log.pending| - 1
  {
    log.(pending := log.pending[..i] + log.pending[i + 1..])
  }

  function Drain<C>(lib: Library<C>, log: Log<C>): (Log<C>, bool)
    decreases |log.pending|
  {
    var i := FirstReady(lib, Ids(lib, log.ops), log.pending);
    if i == |log.pending| then (log, true)
    else
      var (next, ok) := Process(lib, TakeOut(log, i), log.pending[i]);
      if ok then Drain(lib, next) else (next, false)
  }

  /** `Applied` is the source's `Ok(true)`, `Held` its `Ok(false)`: a duplicate or a pending operation. */
  datatype Verdict = Applied | Held | Rejected

  function Apply<C>(lib: Library<C>, log: Log<C>, op: SignedOp): (Log<C>, Verdict) {
    if !lib.verifies(op) then (log, Rejected)
    else if lib.id(op) in Ids(lib, log.ops) + Ids(lib, log.pending) then (log, Held)
    else if !Ready(lib, Ids(lib, log.ops), op) then (log.(pending := log.pending + [op]), Held)
    else
      var (next, ok) := Process(lib, log, op);
      if !ok then (next, Rejected)
      else
        var (drained, drainedOk) := Drain(lib, next);
        (drained, if drainedOk then Applied else Rejected)
  }

  /** A gossip payload; `None` stands for bytes that do not decode. Counts the newly applied. */
  function ApplyAll<C>(lib: Library<C>, log: Log<C>, payload: seq<Option<SignedOp>>): (Log<C>, nat)
    decreases |payload|
  {
    if payload == [] then (log, 0)
    else
      var (next, verdict) := if payload[0].Some? then Apply(lib, log, payload[0].value) else (log, Rejected);
      var (last, n) := ApplyAll(lib, next, payload[1..]);
      (last, n + if verdict == Applied then 1 else 0)
  }

  datatype LoadError = BadOp | UnmetDeps(count: nat)

  function ReplayAll<C>(lib: Library<C>, log: Log<C>, ops: seq<SignedOp>): Result<Log<C>, LoadError>
    decreases |ops|
  {
    if ops == [] then Ok(log)
    else
      var (next, verdict) := Apply(lib, log, ops[0]);
      if verdict == Rejected then Err(BadOp) else ReplayAll(lib, next, ops[1..])
  }

  function Load<C>(lib: Library<C>, saved: Option<seq<SignedOp>>): Result<Log<C>, LoadError> {
    if saved.None? then Ok(EmptyLog(lib))
    else
      match ReplayAll(lib, EmptyLog(lib), saved.value)
      case Err(e) => Err(e)
      case Ok(log) => if log.pending == [] then Ok(log) else Err(UnmetDeps(|log.pending|))
  }

  function IsMember<C>(lib: Library<C>, log: Log<C>, group: MemberId, member: MemberId): bool {
    exists m | m in lib.members(log.crdt, group) :: m.0 == member
  }

  method FindReady<C>(lib: Library<C>, known: set<OpId>, pending: seq<SignedOp>) returns (i: nat)
    ensures i == FirstReady(lib, known, pending)
  {
    i := 0;
    while i < |pending| && !Ready(lib, known, pending[i])
      invariant 0 <= i <= |pending|
      invariant FirstReady(lib, known, pending) == i + FirstReady(lib, known, pending[i..])
    {
      assert pending[i..][1..] == pending[i + 1..];
      i := i + 1;
    }
  }

  /** `auth.log` on disk. */
  class LogFile {
    var saved: Option<seq<SignedOp>>

    constructor ()
      ensures saved == None
    {
      saved := None;
    }
  }

  class AuthState<C> {
    const lib: Library<C>
    var crdt: C
    var ops: seq<SignedOp>
    var pending: seq<SignedOp>

    function Now(): Log<C>
      reads this
    {
      Log(crdt, ops, pending)
    }

    constructor (lib: Library<C>)
      ensures this.lib == lib && Now() == EmptyLog(lib)
    {
      this.lib := lib;
      crdt, ops, pending := lib.empty, [], [];
    }

    method ProcessOp(op: SignedOp) returns (ok: bool)
      modifies this
      ensures (Now(), ok) == Process(lib, old(Now()), op)
    {
      var prev := crdt;
      crdt := lib.empty;
      var next := lib.process(prev, op);
      if next.None? {
        return false;
      }
      crdt := next.value;
      ops := ops + [op];
      return true;
    }

    method DrainPending() returns (ok: bool)
      modifies this
      ensures (Now(), ok) == Drain(lib, old(Now()))
    {
      while true
        invariant Drain(lib, Now()) == Drain(lib, old(Now()))
        decreases |pending|
      {
        var known := Ids(lib, ops);
        var i := FindReady(lib, known, pending);
        if i == |pending| {
          return true;
        }
        ghost var before := Now();
        var op := pending[i];
        pending := pending[..i] + pending[i + 1..];
        assert Now() == TakeOut(before, i);
        ok := ProcessOp(op);
        if !ok {
          return false;
        }
      }
    }

    method ApplyRemote(op: SignedOp) returns (verdict: Verdict)
      modifies this
      ensures (Now(), verdict) == Apply(lib, old(Now()), op)
    {
      if !lib.verifies(op) {
        return Rejected;
      }
      if lib.id(op) in Ids(lib, ops) || lib.id(op) in Ids(lib, pending) {
        return Held;
      }
      var known := Ids(lib, ops);
      if !Ready(lib, known, op) {
        pending := pending + [op];
        return Held;
      }
      var ok := ProcessOp(op);
      if !ok {
        return Rejected;
      }
      ok := DrainPending();
      return if ok then Applied else Rejected;
    }

    /** Signs an operation on top of the current heads and applies it; `pending` is not drained. */
    method Author(me: MemberId, group: MemberId, action: Action) returns (op: SignedOp, ok: bool)
      modifies this
      ensures op == AuthoredOp(lib, old(Now()), me, group, action)
      ensures op.author == me && op.group == group && op.action == action
      ensures op.deps == lib.heads(old(crdt)) && op.signature == lib.sign(me, lib.heads(old(crdt)), group, action)
      ensures (Now(), ok) == Process(lib, old(Now()), op)
    {
      var deps := lib.heads(crdt);
      op := SignedOp(me, deps, group, action, lib.sign(me, deps, group, action));
      ok := ProcessOp(op);
    }

    method ApplyAuthOps(payload: seq<Option<SignedOp>>, file: LogFile) returns (applied: nat)
      modifies this, file
      ensures (Now(), applied) == ApplyAll(lib, old(Now()), payload)
      ensures file.saved == if applied > 0 then Some(ops) else old(file.saved)
    {
      applied := 0;
      var i := 0;
      while i < |payload|
        invariant 0 <= i <= |payload|
        invariant var (log, n) := ApplyAll(lib, Now(), payload[i..]);
          ApplyAll(lib, old(Now()), payload) == (log, applied + n)
        invariant file.saved == old(file.saved)
      {
        assert payload[i..][1..] == payload[i + 1..];
        if payload[i].Some? {
          var verdict := ApplyRemote(payload[i].value);
          if verdict == Applied {
            applied := applied + 1;
          }
        }
        i := i + 1;
      }
      if applied > 0 {
        file.saved := Some(ops);
      }
    }

    /** Replay a saved log, or start empty. */
    method LoadFrom(file: LogFile) returns (r: Result<(), LoadError>)
      requires Now() == EmptyLog(lib)
      modifies this
      ensures match Load(lib, file.saved)
              case Ok(log) => r.Ok? && Now() == log
              case Err(e) => r == Err(e)
    {
      if file.saved.None? {
        return Ok(());
      }
      var saved := file.saved.value;
      var i := 0;
      while i < |saved|
        invariant 0 <= i <= |saved|
        invariant ReplayAll(lib, EmptyLog(lib), saved) == ReplayAll(lib, Now(), saved[i..])
      {
        assert saved[i..][1..] == saved[i + 1..];
        var verdict := ApplyRemote(saved[i]);
        if verdict == Rejected {
          return Err(BadOp);
        }
        i := i + 1;
      }
      if pending != [] {
        return Err(UnmetDeps(|pending|));
      }
      return Ok(());
    }
  }

  function AuthoredOp<C>(lib: Library<C>, log: Log<C>, me: MemberId, group: MemberId, action: Action): SignedOp {
    var deps := lib.heads(log.crdt);
    SignedOp(me, deps, group, action, lib.sign(me, deps, group, action))
  }
}
