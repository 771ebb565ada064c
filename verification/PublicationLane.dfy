/** One running background publication and at most one successor per project, and the stop requests they share. */
module PublicationLane {
  import opened Wrappers

  // ---- a stop request and the process it targets ----

  datatype Stop = Stop(scopes: nat, requested: bool, pid: Option<nat>, cutoffCrossed: bool)

  const IDLE := Stop(0, false, None, false)
  const FRESH := Stop(1, false, None, false)

  function BegunStop(s: Stop): Stop {
    var t := if s.scopes == 0 then IDLE else s;
    t.(scopes := t.scopes + 1)
  }

  function RequestedStop(s: Stop): (Stop, Option<nat>) {
    if s.scopes == 0 || s.cutoffCrossed then (s, None) else (s.(requested := true), s.pid)
  }

  function AttachedStop(s: Stop, pid: nat): (Stop, bool) {
    if s.scopes == 0 || s.cutoffCrossed then (s, false) else (s.(pid := Some(pid)), !s.requested)
  }

  function UnregisteredStop(s: Stop, pid: nat): Stop {
    if s.pid == Some(pid) then s.(pid := None) else s
  }

  predicate IsRequested(s: Stop) { s.scopes > 0 && s.requested && !s.cutoffCrossed }

  function DetachedStop(s: Stop): (Stop, bool) {
    if s.scopes == 0 then (s, false)
    else (if s.scopes == 1 then IDLE else s.(pid := None, scopes := s.scopes - 1), s.requested && !s.cutoffCrossed)
  }

  /** What became of a commit: it was not tried because of a stop, it failed, or it made the checkpoint visible. */
  datatype Commitment = Stopped | NotCommitted | Visible

  /** `commit_visibility`; `succeeds` is what the commit itself would answer. */
  function CommittedStop(s: Stop, succeeds: bool): (Stop, Commitment) {
    if s.scopes > 0 && s.requested then (s, Stopped)
    else if !succeeds then (s, NotCommitted)
    else (s.(cutoffCrossed := true), Visible)
  }

  class CompileCancel {
    var activeScopes: nat
    var requested: bool
    var pid: Option<nat>
    var publicationCutoffCrossed: bool

    ghost function State(): Stop
      reads this
    {
      Stop(activeScopes, requested, pid, publicationCutoffCrossed)
    }

    constructor ()
      ensures State() == IDLE
    {
      activeScopes, requested, pid, publicationCutoffCrossed := 0, false, None, false;
    }

    method Begin()
      modifies this
      ensures State() == BegunStop(old(State()))
    {
      if activeScopes == 0 {
        requested, pid, publicationCutoffCrossed := false, None, false;
      }
      activeScopes := activeScopes + 1;
    }

    method Request() returns (process: Option<nat>)
      modifies this
      ensures (State(), process) == RequestedStop(old(State()))
    {
      if activeScopes == 0 || publicationCutoffCrossed { return None; }
      requested := true;
      return pid;
    }

    method Attach(process: nat) returns (goOn: bool)
      modifies this
      ensures (State(), goOn) == AttachedStop(old(State()), process)
    {
      if activeScopes == 0 || publicationCutoffCrossed { return false; }
      pid := Some(process);
      return !requested;
    }

    method Unregister(process: nat)
      modifies this
      ensures State() == UnregisteredStop(old(State()), process)
    {
      if pid == Some(process) { pid := None; }
    }

    /** `is_requested`: what the publication polls. */
    method Polled() returns (stopped: bool)
      ensures stopped == IsRequested(State())
    {
      return activeScopes > 0 && requested && !publicationCutoffCrossed;
    }

    method Detach() returns (stopped: bool)
      modifies this
      ensures (State(), stopped) == DetachedStop(old(State()))
    {
      if activeScopes == 0 { return false; }
      stopped := requested && !publicationCutoffCrossed;
      pid := None;
      activeScopes := activeScopes - 1;
      if activeScopes == 0 {
        requested, publicationCutoffCrossed := false, false;
      }
    }

    method CommitVisibility(succeeds: bool) returns (commitment: Commitment)
      modifies this
      ensures (State(), commitment) == CommittedStop(old(State()), succeeds)
    {
      if activeScopes > 0 && requested { return Stopped; }
      if !succeeds { return NotCommitted; }
      publicationCutoffCrossed := true;
      return Visible;
    }
  }

  // ---- the lanes ----

  /** A request carries the order in which it was admitted. */
  datatype Request = Request(project: string, ticket: nat)

  /** `inFlight` names the stop handle that the lane shares with its worker. */
  datatype Lane = Lane(inFlight: Option<nat>, successor: Option<Request>)

  datatype Lanes = Lanes(lanes: map<string, Lane>, stops: map<nat, Stop>, handles: nat)

  const NO_LANE := Lane(None, None)

  function StoppedInFlight(l: Lanes, lane: Lane): (Lanes, Option<nat>) {
    if lane.inFlight.None? || lane.inFlight.value !in l.stops then (l, None)
    else
      var (stop, pid) := RequestedStop(l.stops[lane.inFlight.value]);
      (l.(stops := l.stops[lane.inFlight.value := stop]), pid)
  }

  /** `admit_publication`: runs at once, or stops the running one and becomes its only successor. */
  function Admitted(l: Lanes, request: Request): (Lanes, Option<nat>, Option<nat>) {
    var lane := if request.project in l.lanes then l.lanes[request.project] else NO_LANE;
    if lane.inFlight.Some? then
      var (stopped, pid) := StoppedInFlight(l, lane);
      (stopped.(lanes := stopped.lanes[request.project := lane.(successor := Some(request))]), None, pid)
    else
      (Lanes(l.lanes[request.project := lane.(inFlight := Some(l.handles))], l.stops[l.handles := FRESH], l.handles + 1),
       Some(l.handles), None)
  }

  /** `finish_publication`: the successor starts with a handle of its own, or the lane goes. */
  function Finished(l: Lanes, project: string, handle: nat): (Lanes, Option<(Request, nat)>) {
    var detached := if handle in l.stops then l.(stops := l.stops[handle := DetachedStop(l.stops[handle]).0]) else l;
    if project in l.lanes && l.lanes[project].successor.Some? then
      var request := l.lanes[project].successor.value;
      (Lanes(detached.lanes[project := Lane(Some(l.handles), None)], detached.stops[l.handles := FRESH], l.handles + 1),
       Some((request, l.handles)))
    else (detached.(lanes := detached.lanes - {project}), None)
  }

  /** `request_publication_cancel`. */
  function CancelRequested(l: Lanes, project: string): (Lanes, bool, Option<nat>) {
    if project !in l.lanes then (l, false, None)
    else
      var lane := l.lanes[project].(successor := None);
      var (stopped, pid) := StoppedInFlight(l, lane);
      (stopped.(lanes := stopped.lanes[project := lane]), true, pid)
  }

  /** The registry of lanes; handles stand for the shared stop requests. */
  class PublicationRegistry {
    var lanes: map<string, Lane>
    var stops: map<nat, Stop>
    var handles: nat

    ghost function State(): Lanes
      reads this
    {
      Lanes(lanes, stops, handles)
    }

    constructor ()
      ensures State() == Lanes(map[], map[], 0)
    {
      lanes, stops, handles := map[], map[], 0;
    }

    method StopInFlight(lane: Lane) returns (pid: Option<nat>)
      modifies this`stops
      ensures (State(), pid) == StoppedInFlight(old(State()), lane)
    {
      if lane.inFlight.None? || lane.inFlight.value !in stops { return None; }
      var (stop, process) := RequestedStop(stops[lane.inFlight.value]);
      stops := stops[lane.inFlight.value := stop];
      return process;
    }

    /** A default handle, begun. */
    method NewHandle() returns (handle: nat)
      modifies this`stops, this`handles
      ensures handle == old(handles) && handles == old(handles) + 1 && stops == old(stops)[handle := FRESH]
    {
      handle := handles;
      stops, handles := stops[handle := BegunStop(IDLE)], handles + 1;
    }

    method AdmitPublication(request: Request) returns (handle: Option<nat>, terminate: Option<nat>)
      modifies this
      ensures (State(), handle, terminate) == Admitted(old(State()), request)
    {
      if request.project !in lanes { lanes := lanes[request.project := NO_LANE]; }
      var lane := lanes[request.project];
      if lane.inFlight.Some? {
        terminate := StopInFlight(lane);
        lanes := lanes[request.project := lane.(successor := Some(request))];
        return None, terminate;
      }
      var newest := NewHandle();
      lanes := lanes[request.project := lane.(inFlight := Some(newest))];
      assert lanes == old(lanes)[request.project := lane.(inFlight := Some(newest))];
      return Some(newest), None;
    }

    method FinishPublication(project: string, finished: nat) returns (next: Option<(Request, nat)>)
      modifies this
      ensures (State(), next) == Finished(old(State()), project, finished)
    {
      if finished in stops { stops := stops[finished := DetachedStop(stops[finished]).0]; }
      next := None;
      if project in lanes && lanes[project].successor.Some? {
        var request := lanes[project].successor.value;
        lanes := lanes[project := lanes[project].(successor := None)];
        var newest := NewHandle();
        lanes := lanes[project := lanes[project].(inFlight := Some(newest))];
        assert lanes == old(lanes)[project := Lane(Some(newest), None)];
        next := Some((request, newest));
      }
      if next.None? { lanes := lanes - {project}; }
    }

    method RequestPublicationCancel(project: string) returns (running: bool, terminate: Option<nat>)
      modifies this
      ensures (State(), running, terminate) == CancelRequested(old(State()), project)
    {
      if project !in lanes { return false, None; }
      var lane := lanes[project].(successor := None);
      lanes := lanes[project := lane];
      terminate := StopInFlight(lane);
      return true, terminate;
    }
  }
}
