/** The registry of one-time execution approvals and of running executions: one locked section at a time. */
module ExecApprovals {
  import opened Wrappers

  type Token = string
  type Run = string

  const MAX_CANCELLED_RUNS := 256
  const MAX_APPROVALS := 256
  const APPROVAL_TTL := 30

  datatype Approval = Approval(project: string, command: string, run: Run, expiresAt: int)

  /** `active` holds the process of each open execution, once it is known. */
  datatype Registry = Registry(approvals: map<Token, Approval>, order: seq<Token>,
                               active: map<Run, map<Token, Option<nat>>>, cancelled: seq<Run>)

  datatype Lease = Lease(run: Run, execId: Option<Token>, pid: Option<nat>, completed: bool)

  // ---- the locked sections as functions ----

  function Retain(order: seq<Token>, keys: set<Token>): (kept: seq<Token>)
    ensures forall t :: t in kept <==> t in order && t in keys
    ensures Distinct(order) ==> Distinct(kept)
  {
    if order == [] then []
    else
      var rest := Retain(order[..|order| - 1], keys);
      var last := order[|order| - 1];
      assert order == order[..|order| - 1] + [last];
      if last in keys then rest + [last] else rest
  }

  predicate Distinct(order: seq<string>) {
    forall i, j :: 0 <= i < j < |order| ==> order[i] != order[j]
  }

  function DropDangling(r: Registry): Registry {
    r.(order := Retain(r.order, r.approvals.Keys))
  }

  /** `purge_exec_approvals`. */
  function Purge(r: Registry, now: int): Registry {
    DropDangling(r.(approvals := map t | t in r.approvals && r.approvals[t].expiresAt > now :: r.approvals[t]))
  }

  /** The eviction loop of `authorize_at`, its fallback included. */
  function Evict(r: Registry): Registry
    decreases |r.order|
  {
    if |r.approvals| < MAX_APPROVALS then r
    else if r.order == [] then r.(approvals := map[])
    else Evict(r.(approvals := r.approvals - {r.order[0]}, order := r.order[1..]))
  }

  function Authorized(r: Registry, project: string, command: string, run: Run, now: int, token: Token): (Registry, bool) {
    if run in r.cancelled then (r, false)
    else
      var room := Evict(Purge(r, now));
      (room.(order := room.order + [token],
             approvals := room.approvals[token := Approval(project, command, run, now + APPROVAL_TTL)]), true)
  }

  function Opened(active: map<Run, map<Token, Option<nat>>>, run: Run, token: Token): map<Run, map<Token, Option<nat>>> {
    active[run := (if run in active then active[run] else map[])[token := None]]
  }

  function Begun(r: Registry, project: string, command: string, run: Run, token: Token, now: int): (Registry, Option<Lease>) {
    var purged := Purge(r, now);
    if token !in purged.approvals then (purged, None)
    else
      var approval := purged.approvals[token];
      var burned := purged.(approvals := purged.approvals - {token});
      if approval.project != project || approval.command != command || approval.run != run then (burned, None)
      else if run in r.cancelled then (burned, None)
      else (burned.(active := Opened(burned.active, run, token)), Some(Lease(run, Some(token), None, false)))
  }

  predicate IsActive(r: Registry, run: Run, token: Token) {
    run in r.active && token in r.active[run]
  }

  function Activated(r: Registry, lease: Lease, pid: nat): (Registry, Lease, bool) {
    if lease.run in r.cancelled || lease.execId.None? || !IsActive(r, lease.run, lease.execId.value)
    then (r, lease, false)
    else
      (r.(active := r.active[lease.run := r.active[lease.run][lease.execId.value := Some(pid)]]), lease.(pid := Some(pid)), true)
  }

  /** `unregister`: the entry, if it is still there, and never an empty table. */
  function Unregistered(r: Registry, lease: Lease): (Registry, Option<Option<nat>>) {
    if lease.execId.None? || lease.run !in r.active then (r, None)
    else
      var table := r.active[lease.run];
      var entry := if lease.execId.value in table then Some(table[lease.execId.value]) else None;
      var rest := table - {lease.execId.value};
      (r.(active := if rest == map[] then r.active - {lease.run} else r.active[lease.run := rest]), entry)
  }

  /** `remember_cancelled_run`. */
  function Remember(cancelled: seq<Run>, run: Run): seq<Run> {
    if run in cancelled then cancelled
    else (if |cancelled| == MAX_CANCELLED_RUNS then cancelled[1..] else cancelled) + [run]
  }

  function RememberAll(cancelled: seq<Run>, runs: seq<Run>): seq<Run> {
    if runs == [] then cancelled else Remember(RememberAll(cancelled, runs[..|runs| - 1]), runs[|runs| - 1])
  }

  /** The processes of a table that have started. */
  function Processes(table: map<Token, Option<nat>>): map<Token, nat> {
    map t | t in table && table[t].Some? :: table[t].value
  }

  function Table(r: Registry, run: Run): map<Token, Option<nat>> {
    if run in r.active then r.active[run] else map[]
  }

  function CancelledRun(r: Registry, run: Run): (Registry, map<Token, nat>) {
    var left := DropDangling(r.(approvals := map t | t in r.approvals && r.approvals[t].run != run :: r.approvals[t]));
    (left.(cancelled := Remember(left.cancelled, run), active := left.active - {run}), Processes(Table(r, run)))
  }

  /** The runs a cancel-all remembers, enumerated in any order. */
  ghost predicate Enumerates(runs: seq<Run>, r: Registry) {
    Distinct(runs) && forall run :: run in runs <==> run in r.active || exists t :: t in r.approvals && r.approvals[t].run == run
  }

  function CancelledAll(r: Registry, runs: seq<Run>): Registry {
    Registry(map[], [], map[], RememberAll(r.cancelled, runs))
  }

  // ---- the registry itself ----

  class AgentExecState {
    var approvals: map<Token, Approval>
    var approvalOrder: seq<Token>
    var active: map<Run, map<Token, Option<nat>>>
    var cancelledRuns: seq<Run>

    ghost function State(): Registry
      reads this
    {
      Registry(approvals, approvalOrder, active, cancelledRuns)
    }

    constructor ()
      ensures State() == Registry(map[], [], map[], [])
    {
      approvals, approvalOrder, active, cancelledRuns := map[], [], map[], [];
    }

    method DropDanglingOrder()
      modifies this`approvalOrder
      ensures State() == DropDangling(old(State()))
    {
      var kept := [];
      for i := 0 to |approvalOrder|
        invariant approvalOrder == old(approvalOrder)
        invariant kept == Retain(approvalOrder[..i], approvals.Keys)
      {
        assert approvalOrder[..i + 1][..i] == approvalOrder[..i];
        if approvalOrder[i] in approvals { kept := kept + [approvalOrder[i]]; }
      }
      assert approvalOrder[..|approvalOrder|] == approvalOrder;
      approvalOrder := kept;
    }

    method PurgeExecApprovals(now: int)
      modifies this`approvals, this`approvalOrder
      ensures State() == Purge(old(State()), now)
    {
      approvals := map t | t in approvals && approvals[t].expiresAt > now :: approvals[t];
      DropDanglingOrder();
    }

    /** `authorize_at`, the token being drawn by the caller. */
    method AuthorizeAt(project: string, command: string, run: Run, now: int, token: Token) returns (granted: bool)
      modifies this`approvals, this`approvalOrder
      ensures (State(), granted) == Authorized(old(State()), project, command, run, now, token)
    {
      if run in cancelledRuns { return false; }
      PurgeExecApprovals(now);
      ghost var purged := State();
      while |approvals| >= MAX_APPROVALS
        invariant Evict(State()) == Evict(purged)
        invariant active == old(active) && cancelledRuns == old(cancelledRuns)
        decreases |approvals| >= MAX_APPROVALS, |approvalOrder|
      {
        if approvalOrder == [] {
          approvals := map[];
          break;
        }
        var oldest := approvalOrder[0];
        approvalOrder := approvalOrder[1..];
        approvals := approvals - {oldest};
      }
      approvalOrder := approvalOrder + [token];
      approvals := approvals[token := Approval(project, command, run, now + APPROVAL_TTL)];
      return true;
    }

    method BeginExecutionAt(project: string, command: string, run: Run, token: Token, now: int) returns (lease: Option<Lease>)
      modifies this`approvals, this`approvalOrder, this`active
      ensures (State(), lease) == Begun(old(State()), project, command, run, token, now)
    {
      PurgeExecApprovals(now);
      if token !in approvals { return None; }
      var approval := approvals[token];
      approvals := approvals - {token};
      if approval.project != project || approval.command != command || approval.run != run { return None; }
      if run in cancelledRuns { return None; }
      if run !in active { active := active[run := map[]]; }
      active := active[run := active[run][token := None]];
      assert active == Opened(old(active), run, token);
      return Some(Lease(run, Some(token), None, false));
    }

    method RememberCancelledRun(run: Run)
      modifies this`cancelledRuns
      ensures cancelledRuns == Remember(old(cancelledRuns), run)
    {
      if run in cancelledRuns { return; }
      if |cancelledRuns| == MAX_CANCELLED_RUNS { cancelledRuns := cancelledRuns[1..]; }
      cancelledRuns := cancelledRuns + [run];
    }

    /** Remembers every run of a set, in whatever order it is walked. */
    method RememberEach(runIds: set<Run>) returns (ghost runs: seq<Run>)
      modifies this`cancelledRuns
      ensures Distinct(runs) && (forall run :: run in runs <==> run in runIds)
      ensures cancelledRuns == RememberAll(old(cancelledRuns), runs)
    {
      var left := runIds;
      runs := [];
      while left != {}
        invariant left <= runIds && Distinct(runs) && forall run :: run in runs <==> run in runIds && run !in left
        invariant cancelledRuns == RememberAll(old(cancelledRuns), runs)
      {
        var next :| next in left;
        assert (runs + [next])[..|runs|] == runs;
        assert forall run :: run in runs + [next] <==> run in runs || run == next;
        RememberCancelledRun(next);
        left, runs := left - {next}, runs + [next];
      }
    }

    /** `cancel_run`; the result is what is to be terminated. */
    method CancelRun(run: Run) returns (processes: map<Token, nat>)
      modifies this
      ensures (State(), processes) == CancelledRun(old(State()), run)
    {
      approvals := map t | t in approvals && approvals[t].run != run :: approvals[t];
      DropDanglingOrder();
      RememberCancelledRun(run);
      processes := if run in active then Processes(active[run]) else map[];
      active := active - {run};
    }

    /** `cancel_all`; the runs are remembered in whatever order their set is walked. */
    method CancelAll() returns (ghost runs: seq<Run>, processes: map<Run, map<Token, nat>>)
      modifies this
      ensures Enumerates(runs, old(State())) && State() == CancelledAll(old(State()), runs)
      ensures processes.Keys == old(active).Keys && forall run :: run in processes ==> processes[run] == Processes(old(active)[run])
    {
      var runIds := active.Keys + (set t | t in approvals :: approvals[t].run);
      approvals, approvalOrder := map[], [];
      runs := RememberEach(runIds);
      processes := map run | run in active :: Processes(active[run]);
      active := map[];
    }
  }

  class ExecLease {
    const state: AgentExecState
    const run: Run
    var execId: Option<Token>
    var pid: Option<nat>
    var completed: bool

    ghost function Value(): Lease
      reads this
    {
      Lease(run, execId, pid, completed)
    }

    constructor (state: AgentExecState, lease: Lease)
      ensures this.state == state && Value() == lease
    {
      this.state, run, execId, pid, completed := state, lease.run, lease.execId, lease.pid, lease.completed;
    }

    method Activate(process: nat) returns (ok: bool)
      modifies this`pid, state`active
      ensures (state.State(), Value(), ok) == Activated(old(state.State()), old(Value()), process)
    {
      if run in state.cancelledRuns { return false; }
      if execId.None? { return false; }
      if run !in state.active || execId.value !in state.active[run] { return false; }
      state.active := state.active[run := state.active[run][execId.value := Some(process)]];
      pid := Some(process);
      return true;
    }

    method Unregister() returns (entry: Option<Option<nat>>)
      modifies this`execId, state`active
      ensures (state.State(), entry) == Unregistered(old(state.State()), old(Value()))
      ensures execId == None
    {
      if execId.None? { return None; }
      entry := None;
      if run in state.active {
        if execId.value in state.active[run] { entry := Some(state.active[run][execId.value]); }
        state.active := state.active[run := state.active[run] - {execId.value}];
        if state.active[run] == map[] {
          state.active := state.active - {run};
          assert state.active == old(state.active) - {run};
        }
      }
      execId := None;
    }

    method Complete()
      modifies this, state`active
      ensures state.State() == Unregistered(old(state.State()), old(Value())).0
      ensures Value() == Lease(run, None, None, true)
    {
      var entry := Unregister();
      execId, pid, completed := None, None, true;
    }

    /** `drop`: the process to terminate, if this lease still owned a started one. */
    method Drop() returns (process: Option<nat>)
      modifies this`execId, state`active
      ensures old(completed) ==> process == None && state.State() == old(state.State())
      ensures !old(completed) ==>
                var (after, entry) := Unregistered(old(state.State()), old(Value()));
                state.State() == after && process == (if entry.Some? then entry.value else None) && execId == None
    {
      if completed { return None; }
      var entry := Unregister();
      process := if entry.Some? then entry.value else None;
    }
  }
}
