/** Runs of the publication lanes: every interleaving of admissions, finishes, cancels and worker steps. */
module LaneTrace {
  import opened Wrappers
  import opened PublicationLane

  datatype Event =
    | Ran(request: Request, handle: nat)
    | Queued(request: Request, replaced: Option<Request>, handle: nat, told: Option<nat>)
    | Ended(handle: nat, next: Option<Request>)
    | Cancelled(project: string, dropped: Option<Request>, running: Option<nat>, told: Option<nat>)
    | Spawned(handle: nat, pid: nat, refused: bool)
    | Exited(handle: nat, pid: nat)
    | Published(request: Request)
    | Refused(request: Request)
    | Unpublished(request: Request)
    | Entered(handle: nat)
    | Left(handle: nat, stopped: bool)

  datatype Action =
    | Admit(project: string)
    | Finish(handle: nat)
    | Cancel(project: string)
    | Spawn(handle: nat, pid: nat)
    | Exit(handle: nat, pid: nat)
    | Commit(handle: nat, succeeds: bool)
    | Enter(handle: nat)
    | Leave(handle: nat)

  /** The lanes, the workers with the request each is running, the tickets given out, and the log. */
  datatype World = World(l: Lanes, workers: map<nat, Request>, tickets: nat, log: seq<Event>)

  const INITIAL := World(Lanes(map[], map[], 0), map[], 0, [])

  /**
   * A worker opens and closes inner scopes on its handle, spawns, reaps, commits until the checkpoint is visible, and finishes
   * with its own handle once the inner scopes are closed.
   */
  ghost predicate Enabled(w: World, a: Action) {
    match a
    case Admit(_) => true
    case Cancel(_) => true
    case Commit(h, _) => h in w.workers && h in w.l.stops && !w.l.stops[h].cutoffCrossed
    case Enter(h) => h in w.workers && h in w.l.stops
    case Leave(h) => h in w.workers && h in w.l.stops && w.l.stops[h].scopes > 1
    case Finish(h) => h in w.workers && h in w.l.stops && w.l.stops[h].scopes == 1
    case Spawn(h, _) => h in w.workers && h in w.l.stops
    case Exit(h, _) => h in w.workers && h in w.l.stops
  }

  ghost function Waiting(l: Lanes, project: string): Option<Request> {
    if project in l.lanes then l.lanes[project].successor else None
  }

  ghost function InFlight(l: Lanes, project: string): Option<nat> {
    if project in l.lanes then l.lanes[project].inFlight else None
  }

  ghost function Step(w: World, a: Action): World
    requires Enabled(w, a)
  {
    match a
    case Admit(project) =>
      var request := Request(project, w.tickets);
      var (l, handle, told) := Admitted(w.l, request);
      if handle.Some?
      then World(l, w.workers[handle.value := request], w.tickets + 1, w.log + [Ran(request, handle.value)])
      else World(l, w.workers, w.tickets + 1,
                 w.log + [Queued(request, Waiting(w.l, project), InFlight(w.l, project).value, told)])
    case Finish(h) =>
      var (l, next) := Finished(w.l, w.workers[h].project, h);
      if next.Some?
      then World(l, (w.workers - {h})[next.value.1 := next.value.0], w.tickets, w.log + [Ended(h, Some(next.value.0))])
      else World(l, w.workers - {h}, w.tickets, w.log + [Ended(h, None)])
    case Cancel(project) =>
      var (l, _, told) := CancelRequested(w.l, project);
      w.(l := l, log := w.log + [Cancelled(project, Waiting(w.l, project), InFlight(w.l, project), told)])
    case Spawn(h, pid) =>
      var (stop, goOn) := AttachedStop(w.l.stops[h], pid);
      w.(l := w.l.(stops := w.l.stops[h := stop]), log := w.log + [Spawned(h, pid, !goOn)])
    case Exit(h, pid) =>
      w.(l := w.l.(stops := w.l.stops[h := UnregisteredStop(w.l.stops[h], pid)]), log := w.log + [Exited(h, pid)])
    case Commit(h, succeeds) =>
      var (stop, commitment) := CommittedStop(w.l.stops[h], succeeds);
      w.(l := w.l.(stops := w.l.stops[h := stop]),
         log := w.log + [match commitment
                         case Visible => Published(w.workers[h])
                         case Stopped => Refused(w.workers[h])
                         case NotCommitted => Unpublished(w.workers[h])])
    case Enter(h) =>
      w.(l := w.l.(stops := w.l.stops[h := BegunStop(w.l.stops[h])]), log := w.log + [Entered(h)])
    case Leave(h) =>
      var (stop, stopped) := DetachedStop(w.l.stops[h]);
      w.(l := w.l.(stops := w.l.stops[h := stop]), log := w.log + [Left(h, stopped)])
  }

  ghost function Execute(actions: seq<Action>): World {
    if actions == [] then INITIAL
    else
      var w := Execute(actions[..|actions| - 1]);
      var a := actions[|actions| - 1];
      if Enabled(w, a) then Step(w, a) else w
  }

  // ---- one lane, one worker ----

  /** Every lane is run by one worker, of its own project. */
  ghost predicate LanesOwned(w: World) {
    forall p :: p in w.l.lanes ==>
      && w.l.lanes[p].inFlight.Some? && w.l.lanes[p].inFlight.value in w.workers
      && w.workers[w.l.lanes[p].inFlight.value].project == p
  }

  /** Every worker runs the lane of its project, with a live stop handle of its own. */
  ghost predicate WorkersOwn(w: World) {
    && (forall h :: h in w.workers ==>
          && w.workers[h].project in w.l.lanes && w.l.lanes[w.workers[h].project].inFlight == Some(h)
          && h in w.l.stops && w.l.stops[h].scopes >= 1)
    && (forall h :: h in w.l.stops ==> h < w.l.handles)
  }

  /** A project has a lane exactly when one worker runs for it, and then the lane's handle is that worker's. */
  ghost predicate OneWorker(w: World) { LanesOwned(w) && WorkersOwn(w) }

  /** A successor is a request of its own project, newer than the one that runs. */
  ghost predicate SuccessorsNewer(w: World) {
    && (forall h :: h in w.workers ==> w.workers[h].ticket < w.tickets)
    && (forall p :: p in w.l.lanes && w.l.lanes[p].successor.Some? ==>
          && w.l.lanes[p].successor.value.project == p && w.l.lanes[p].successor.value.ticket < w.tickets
          && w.l.lanes[p].inFlight.Some? && w.l.lanes[p].inFlight.value in w.workers
          && w.workers[w.l.lanes[p].inFlight.value].ticket < w.l.lanes[p].successor.value.ticket)
  }

  ghost predicate Wired(w: World) { OneWorker(w) && SuccessorsNewer(w) }

  lemma AdmitOneWorker(w: World, project: string)
    requires Wired(w)
    ensures OneWorker(Step(w, Admit(project)))
  {
    hide RequestedStop, SuccessorsNewer;
    StopKeepsScopes(w.l);
  }

  lemma AdmitSuccessorsNewer(w: World, project: string)
    requires Wired(w)
    ensures SuccessorsNewer(Step(w, Admit(project)))
  {
    hide RequestedStop;
  }

  lemma FinishOneWorker(w: World, h: nat)
    requires Wired(w) && Enabled(w, Finish(h))
    ensures OneWorker(Step(w, Finish(h)))
  {
    hide LanesOwned, WorkersOwn, SuccessorsNewer;
    FinishLanesOwned(w, h);
    FinishWorkersOwn(w, h);
  }

  lemma FinishLanesOwned(w: World, h: nat)
    requires Wired(w) && Enabled(w, Finish(h))
    ensures LanesOwned(Step(w, Finish(h)))
  {
    hide DetachedStop;
    var next := Step(w, Finish(h));
    var project := w.workers[h].project;
    forall p | p in next.l.lanes && p != project
      ensures p in w.l.lanes && next.l.lanes[p] == w.l.lanes[p]
      ensures next.l.lanes[p].inFlight.value in next.workers && next.workers[next.l.lanes[p].inFlight.value].project == p
    {
      assert w.l.lanes[p].inFlight.value in w.workers && w.l.lanes[p].inFlight.value != h;
    }
  }

  lemma FinishWorkersOwn(w: World, h: nat)
    requires Wired(w) && Enabled(w, Finish(h))
    ensures WorkersOwn(Step(w, Finish(h)))
  {
    hide DetachedStop;
    var next := Step(w, Finish(h));
    var project := w.workers[h].project;
    assert w.l.lanes[project].successor.Some? ==> w.l.lanes[project].successor.value.project == project;
    hide SuccessorsNewer;
    forall k | k in next.workers && k != w.l.handles
      ensures k in w.workers && k != h && next.workers[k] == w.workers[k] && w.workers[k].project != project
      ensures k in next.l.stops && next.l.stops[k] == w.l.stops[k]
    {
    }
  }

  lemma FinishSuccessorsNewer(w: World, h: nat)
    requires Wired(w) && Enabled(w, Finish(h))
    ensures SuccessorsNewer(Step(w, Finish(h)))
  {
    hide DetachedStop;
  }

  lemma CancelOneWorker(w: World, project: string)
    requires Wired(w)
    ensures OneWorker(Step(w, Cancel(project)))
  {
    hide RequestedStop, SuccessorsNewer;
    StopKeepsScopes(w.l);
  }

  lemma CancelSuccessorsNewer(w: World, project: string)
    requires Wired(w)
    ensures SuccessorsNewer(Step(w, Cancel(project)))
  {
    hide RequestedStop;
  }

  lemma StopKeepsScopes(l: Lanes)
    ensures forall s :: RequestedStop(s).0.scopes == s.scopes
  {
  }

  lemma WiredStop(w: World, a: Action)
    requires Wired(w) && Enabled(w, a) && (a.Spawn? || a.Exit? || a.Commit? || a.Enter? || a.Leave?)
    ensures Wired(Step(w, a))
  {
  }

  lemma WiredStep(w: World, a: Action)
    requires Wired(w) && Enabled(w, a)
    ensures Wired(Step(w, a))
  {
    hide OneWorker, SuccessorsNewer, Step;
    match a
    case Admit(project) => AdmitOneWorker(w, project); AdmitSuccessorsNewer(w, project);
    case Finish(h) => FinishOneWorker(w, h); FinishSuccessorsNewer(w, h);
    case Cancel(project) => CancelOneWorker(w, project); CancelSuccessorsNewer(w, project);
    case _ => WiredStop(w, a);
  }

  lemma {:induction false} WiredAlways(actions: seq<Action>)
    ensures Wired(Execute(actions))
  {
    if actions != [] {
      hide Wired, Step;
      var front := actions[..|actions| - 1];
      WiredAlways(front);
      if Enabled(Execute(front), actions[|actions| - 1]) { WiredStep(Execute(front), actions[|actions| - 1]); }
    }
  }

  // ---- what becomes of every request ----

  ghost function Admits(e: Event): Option<Request> {
    if e.Ran? || e.Queued? then Some(e.request) else None
  }

  ghost function Starts(e: Event): Option<Request> {
    if e.Ran? then Some(e.request) else if e.Ended? then e.next else None
  }

  /** The event replaces the waiting request by a later one, or a cancel drops it. */
  ghost function Discards(e: Event): Option<Request> {
    if e.Queued? then e.replaced else if e.Cancelled? then e.dropped else None
  }

  ghost function One(b: bool): nat { if b then 1 else 0 }

  ghost function Admissions(log: seq<Event>, r: Request): nat {
    if log == [] then 0 else Admissions(log[..|log| - 1], r) + One(Admits(log[|log| - 1]) == Some(r))
  }

  /** How often a request was started, replaced or dropped. */
  ghost function Outcomes(log: seq<Event>, r: Request): nat {
    if log == [] then 0
    else Outcomes(log[..|log| - 1], r) + One(Starts(log[|log| - 1]) == Some(r)) + One(Discards(log[|log| - 1]) == Some(r))
  }

  ghost predicate IsWaiting(w: World, r: Request) { Waiting(w.l, r.project) == Some(r) }

  /** Every admitted request was started, replaced or dropped, once, or it is still the successor. */
  ghost predicate Accounted(w: World, r: Request) {
    && Admissions(w.log, r) == Outcomes(w.log, r) + One(IsWaiting(w, r))
    && Admissions(w.log, r) <= 1
    && (r.ticket >= w.tickets ==> Admissions(w.log, r) == 0)
  }

  lemma CountNext(log: seq<Event>, e: Event, r: Request)
    ensures Admissions(log + [e], r) == Admissions(log, r) + One(Admits(e) == Some(r))
    ensures Outcomes(log + [e], r) == Outcomes(log, r) + One(Starts(e) == Some(r)) + One(Discards(e) == Some(r))
  {
    assert (log + [e])[..|log|] == log;
  }

  lemma AccountedAdmit(w: World, project: string, r: Request)
    requires Wired(w) && Accounted(w, r)
    ensures Accounted(Step(w, Admit(project)), r)
  {
    hide Admissions, Outcomes, RequestedStop, DetachedStop, AttachedStop, CommittedStop, UnregisteredStop;
    var next := Step(w, Admit(project));
    assert next.log == w.log + [next.log[|w.log|]];
    CountNext(w.log, next.log[|w.log|], r);
    AdmitWaits(w, project, r);
  }

  lemma AccountedFinish(w: World, h: nat, r: Request)
    requires Wired(w) && Accounted(w, r) && Enabled(w, Finish(h))
    ensures Accounted(Step(w, Finish(h)), r)
  {
    hide Admissions, Outcomes, RequestedStop, DetachedStop, AttachedStop, CommittedStop, UnregisteredStop;
    var next := Step(w, Finish(h));
    assert next.log == w.log + [next.log[|w.log|]];
    CountNext(w.log, next.log[|w.log|], r);
    assert w.workers[h].project in w.l.lanes;
  }

  lemma AccountedOther(w: World, a: Action, r: Request)
    requires Wired(w) && Accounted(w, r) && Enabled(w, a) && !a.Admit? && !a.Finish?
    ensures Accounted(Step(w, a), r)
  {
    hide Admissions, Outcomes, RequestedStop, DetachedStop, AttachedStop, CommittedStop, UnregisteredStop;
    var next := Step(w, a);
    assert next.log == w.log + [next.log[|w.log|]];
    CountNext(w.log, next.log[|w.log|], r);
  }

  lemma AccountedStep(w: World, a: Action, r: Request)
    requires Wired(w) && Enabled(w, a) && Accounted(w, r)
    ensures Accounted(Step(w, a), r)
  {
    hide Wired, Accounted, Step;
    match a
    case Admit(project) => AccountedAdmit(w, project, r);
    case Finish(h) => AccountedFinish(w, h, r);
    case _ => AccountedOther(w, a, r);
  }

  lemma AdmitWaits(w: World, project: string, r: Request)
    requires Wired(w)
    ensures var next := Step(w, Admit(project));
      && (project in w.l.lanes ==> Waiting(next.l, project) == Some(Request(project, w.tickets)))
      && (project !in w.l.lanes ==> Waiting(next.l, project) == None)
      && (r.project != project ==> Waiting(next.l, r.project) == Waiting(w.l, r.project))
      && (Waiting(w.l, project).Some? ==> Waiting(w.l, project).value.ticket < w.tickets && Waiting(w.l, project).value.project == project)
  {
    hide RequestedStop;
  }

  lemma {:induction false} AccountedAlways(actions: seq<Action>, r: Request)
    ensures Accounted(Execute(actions), r)
  {
    if actions != [] {
      hide Wired, Step, Accounted;
      var front := actions[..|actions| - 1];
      AccountedAlways(front, r);
      WiredAlways(front);
      if Enabled(Execute(front), actions[|actions| - 1]) { AccountedStep(Execute(front), actions[|actions| - 1], r); }
    }
  }

  // ---- the latest request wins ----

  ghost predicate NewerAdmitted(e: Event, r: Request) {
    Admits(e).Some? && Admits(e).value.project == r.project && Admits(e).value.ticket > r.ticket
  }

  ghost predicate WasAdmitted(log: seq<Event>, to: nat, r: Request)
    requires to <= |log|
  {
    exists a :: 0 <= a < to && Admits(log[a]) == Some(r)
  }

  /** The event at `i` overtakes the request: a newer one was admitted, or its project was cancelled after its own admission. */
  ghost predicate Overtakes(log: seq<Event>, i: nat, r: Request)
    requires i < |log|
  {
    NewerAdmitted(log[i], r) || (log[i].Cancelled? && log[i].project == r.project && WasAdmitted(log, i, r))
  }

  ghost predicate Overtaken(log: seq<Event>, to: nat, r: Request)
    requires to <= |log|
  {
    exists i: nat :: i < to && Overtakes(log, i, r)
  }

  ghost predicate StoppedOrVisible(w: World, h: nat)
    requires h in w.l.stops
  {
    w.l.stops[h].requested || w.l.stops[h].cutoffCrossed
  }

  ghost predicate TicketsBound(w: World) {
    forall i, r :: 0 <= i < |w.log| && Admits(w.log[i]) == Some(r) ==> r.ticket < w.tickets
  }

  /** A successor is never overtaken; an overtaken worker has been asked to stop or is already visible. */
  ghost predicate Current(w: World) {
    && SuccessorsCurrent(w)
    && (forall h :: h in w.workers ==>
          h in w.l.stops && (Overtaken(w.log, |w.log|, w.workers[h]) ==> StoppedOrVisible(w, h)))
  }

  ghost predicate SuccessorsCurrent(w: World) {
    forall p :: Waiting(w.l, p).Some? ==>
      !Overtaken(w.log, |w.log|, Waiting(w.l, p).value) && WasAdmitted(w.log, |w.log|, Waiting(w.l, p).value)
  }

  /** Nothing was started or made visible after it had been overtaken. */
  ghost predicate Timely(log: seq<Event>) {
    forall j :: 0 <= j < |log| ==> TimelyAt(log, j)
  }

  /** A request is replaced only by a later one of its project, and dropped only by a cancel of its project. */
  ghost predicate Discarding(e: Event) {
    && (e.Queued? && e.replaced.Some? ==> e.replaced.value.project == e.request.project && e.replaced.value.ticket < e.request.ticket)
    && (e.Cancelled? && e.dropped.Some? ==> e.dropped.value.project == e.project)
  }

  ghost predicate TimelyAt(log: seq<Event>, j: nat)
    requires j < |log|
  {
    && (Starts(log[j]).Some? ==> !Overtaken(log, j, Starts(log[j]).value) && WasAdmitted(log, j + 1, Starts(log[j]).value))
    && (log[j].Published? ==> !Overtaken(log, j, log[j].request))
    && Discarding(log[j])
  }

  lemma OvertakenNext(log: seq<Event>, next: seq<Event>, e: Event, r: Request)
    requires next == log + [e]
    ensures Overtaken(next, |next|, r) <==>
              Overtaken(log, |log|, r) || NewerAdmitted(e, r)
              || (e.Cancelled? && e.project == r.project && WasAdmitted(log, |log|, r))
  {
    assert forall i: nat :: i < |log| ==> (Overtakes(next, i, r) <==> Overtakes(log, i, r)) by {
      forall i: nat | i < |log| ensures Overtakes(next, i, r) <==> Overtakes(log, i, r) { AdmittedStable(log, e, i, r); }
    }
    AdmittedStable(log, e, |log|, r);
    assert Overtakes(next, |log|, r) <==>
      NewerAdmitted(e, r) || (e.Cancelled? && e.project == r.project && WasAdmitted(log, |log|, r));
  }

  lemma AdmittedStable(log: seq<Event>, e: Event, to: nat, r: Request)
    requires to <= |log|
    ensures WasAdmitted(log + [e], to, r) <==> WasAdmitted(log, to, r)
  {
    if WasAdmitted(log, to, r) {
      var a :| 0 <= a < to && Admits(log[a]) == Some(r);
      assert Admits((log + [e])[a]) == Some(r);
    }
  }

  lemma AdmittedLater(log: seq<Event>, e: Event, r: Request)
    ensures WasAdmitted(log + [e], |log| + 1, r) <==> WasAdmitted(log, |log|, r) || Admits(e) == Some(r)
  {
    AdmittedStable(log, e, |log|, r);
    if WasAdmitted(log + [e], |log|, r) {
      var a :| 0 <= a < |log| && Admits((log + [e])[a]) == Some(r);
      assert WasAdmitted(log + [e], |log| + 1, r);
    }
    if Admits(e) == Some(r) { assert Admits((log + [e])[|log|]) == Some(r); }
  }

  lemma OvertakenStable(log: seq<Event>, e: Event, to: nat, r: Request)
    requires to <= |log|
    ensures Overtaken(log + [e], to, r) <==> Overtaken(log, to, r)
  {
    forall i: nat | i < to ensures Overtakes(log + [e], i, r) <==> Overtakes(log, i, r) {
      AdmittedStable(log, e, i, r);
    }
  }

  lemma TimelyNext(log: seq<Event>, e: Event)
    requires Timely(log)
    requires Starts(e).Some? ==> !Overtaken(log, |log|, Starts(e).value)
    requires Starts(e).Some? ==> Admits(e) == Starts(e) || WasAdmitted(log, |log|, Starts(e).value)
    requires e.Published? ==> !Overtaken(log, |log|, e.request)
    requires Discarding(e)
    ensures Timely(log + [e])
  {
    hide Overtaken;
    var next := log + [e];
    forall j | 0 <= j < |next| ensures TimelyAt(next, j) {
      if j < |log| { assert TimelyAt(log, j); }
      if Starts(next[j]).Some? {
        OvertakenStable(log, e, j, Starts(next[j]).value);
        if j < |log| { AdmittedStable(log, e, j + 1, Starts(next[j]).value); }
        else { AdmittedLater(log, e, Starts(e).value); }
      }
      if next[j].Published? { OvertakenStable(log, e, j, next[j].request); }
    }
  }

  /** A request with a ticket not given out yet cannot have been overtaken. */
  lemma NewIsCurrent(w: World, r: Request)
    requires TicketsBound(w) && r.ticket >= w.tickets
    ensures !Overtaken(w.log, |w.log|, r)
  {
    forall i: nat | i < |w.log| ensures !Overtakes(w.log, i, r) {
      assert Admits(w.log[i]).Some? ==> Admits(w.log[i]).value.ticket < w.tickets;
    }
  }

  lemma BoundNext(w: World, next: World, e: Event)
    requires TicketsBound(w) && next.log == w.log + [e] && next.tickets >= w.tickets
    requires Admits(e).Some? ==> Admits(e).value.ticket < next.tickets
    ensures TicketsBound(next)
  {
    forall i, r | 0 <= i < |next.log| && Admits(next.log[i]) == Some(r) ensures r.ticket < next.tickets {
      if i < |w.log| { assert next.log[i] == w.log[i]; }
    }
  }

  ghost predicate LatestWins(w: World) { TicketsBound(w) && Current(w) && Timely(w.log) }

  lemma AdmitCurrent(w: World, project: string)
    requires Wired(w) && LatestWins(w)
    ensures LatestWins(Step(w, Admit(project)))
  {
    hide Overtaken, NewerAdmitted, Timely, WasAdmitted;
    var next := Step(w, Admit(project));
    var e := next.log[|w.log|];
    BoundNext(w, next, e);
    NewIsCurrent(w, Request(project, w.tickets));
    TimelyNext(w.log, e);
    AdmitSuccessors(w, project);
    forall r { OvertakenNext(w.log, next.log, e, r); }
    AdmitOvertakes(w, project, e);
    hide SuccessorsCurrent, TicketsBound;
  }

  lemma AdmitSuccessors(w: World, project: string)
    requires Wired(w) && LatestWins(w)
    ensures SuccessorsCurrent(Step(w, Admit(project)))
  {
    hide Overtaken, NewerAdmitted, Timely, WasAdmitted;
    var next := Step(w, Admit(project));
    var request := Request(project, w.tickets);
    var e := next.log[|w.log|];
    NewIsCurrent(w, request);
    AdmitWaits(w, project, request);
    forall r { OvertakenNext(w.log, next.log, e, r); }
    AdmitOvertakes(w, project, e);
    forall p | Waiting(next.l, p).Some?
      ensures !Overtaken(next.log, |next.log|, Waiting(next.l, p).value)
      ensures WasAdmitted(next.log, |next.log|, Waiting(next.l, p).value)
    {
      AdmitWaits(w, project, Request(p, 0));
      AdmittedLater(w.log, e, Waiting(next.l, p).value);
      if p != project { assert !Overtaken(w.log, |w.log|, Waiting(w.l, p).value); }
    }
  }

  /** Admitting overtakes exactly the older requests of the project, and its worker is then asked to stop. */
  lemma AdmitOvertakes(w: World, project: string, e: Event)
    requires Wired(w) && Admits(e) == Some(Request(project, w.tickets)) && !e.Cancelled?
    ensures forall r :: NewerAdmitted(e, r) <==> r.project == project && r.ticket < w.tickets
    ensures var next := Step(w, Admit(project));
      && (forall h :: h in w.workers ==> h in next.l.stops)
      && (forall h :: h in w.workers && w.workers[h].project == project ==> StoppedOrVisible(next, h))
      && (forall h :: h in w.workers && w.workers[h].project != project ==> next.l.stops[h] == w.l.stops[h])
      && (forall h :: h in next.workers ==>
            next.workers[h] == Request(project, w.tickets) || (h in w.workers && next.workers[h] == w.workers[h]))
  {
  }

  lemma FinishCurrent(w: World, h: nat)
    requires Wired(w) && LatestWins(w) && Enabled(w, Finish(h))
    ensures LatestWins(Step(w, Finish(h)))
  {
    hide Overtaken, Timely, DetachedStop, WasAdmitted;
    var next := Step(w, Finish(h));
    var e := next.log[|w.log|];
    BoundNext(w, next, e);
    assert Starts(e).Some? ==> Waiting(w.l, w.workers[h].project) == Starts(e);
    TimelyNext(w.log, e);
    forall r { OvertakenNext(w.log, next.log, e, r); }
    forall p | Waiting(next.l, p).Some?
      ensures Waiting(w.l, p) == Waiting(next.l, p) && !Overtaken(next.log, |next.log|, Waiting(next.l, p).value)
      ensures WasAdmitted(next.log, |next.log|, Waiting(next.l, p).value)
    {
      assert !Overtaken(w.log, |w.log|, Waiting(w.l, p).value);
      AdmittedLater(w.log, e, Waiting(w.l, p).value);
    }
  }

  lemma CancelCurrent(w: World, project: string)
    requires Wired(w) && LatestWins(w)
    ensures LatestWins(Step(w, Cancel(project)))
  {
    hide Overtaken, Timely, WasAdmitted;
    var next := Step(w, Cancel(project));
    var e := next.log[|w.log|];
    BoundNext(w, next, e);
    TimelyNext(w.log, e);
    forall r { OvertakenNext(w.log, next.log, e, r); }
    forall p | Waiting(next.l, p).Some?
      ensures Waiting(w.l, p) == Waiting(next.l, p) && !Overtaken(next.log, |next.log|, Waiting(next.l, p).value)
      ensures WasAdmitted(next.log, |next.log|, Waiting(next.l, p).value)
    {
      assert !Overtaken(w.log, |w.log|, Waiting(w.l, p).value);
      AdmittedLater(w.log, e, Waiting(w.l, p).value);
    }
  }

  lemma StopCurrent(w: World, a: Action)
    requires Wired(w) && LatestWins(w) && Enabled(w, a) && (a.Spawn? || a.Exit? || a.Commit? || a.Enter? || a.Leave?)
    ensures LatestWins(Step(w, a))
  {
    hide Overtaken, Timely, WasAdmitted;
    var next := Step(w, a);
    var e := next.log[|w.log|];
    BoundNext(w, next, e);
    TimelyNext(w.log, e);
    forall r { OvertakenNext(w.log, next.log, e, r); }
    forall p | Waiting(next.l, p).Some?
      ensures Waiting(w.l, p) == Waiting(next.l, p) && !Overtaken(next.log, |next.log|, Waiting(next.l, p).value)
      ensures WasAdmitted(next.log, |next.log|, Waiting(next.l, p).value)
    {
      assert !Overtaken(w.log, |w.log|, Waiting(w.l, p).value);
      AdmittedLater(w.log, e, Waiting(w.l, p).value);
    }
  }

  lemma {:induction false} LatestWinsAlways(actions: seq<Action>)
    ensures LatestWins(Execute(actions))
  {
    if actions != [] {
      hide Wired, Step, LatestWins;
      var front, a := actions[..|actions| - 1], actions[|actions| - 1];
      LatestWinsAlways(front);
      WiredAlways(front);
      var w := Execute(front);
      if Enabled(w, a) {
        match a
        case Admit(project) => AdmitCurrent(w, project);
        case Finish(h) => FinishCurrent(w, h);
        case Cancel(project) => CancelCurrent(w, project);
        case _ => StopCurrent(w, a);
      }
    }
  }

  // ---- what every run of the lanes keeps ----

  /** A project has a lane exactly when exactly one worker owns its running publication. */
  lemma LaneIffWorker(actions: seq<Action>, p: string)
    ensures var w := Execute(actions);
      && (p in w.l.lanes <==> exists h :: h in w.workers && w.workers[h].project == p)
      && (forall h, k :: h in w.workers && k in w.workers && w.workers[h].project == w.workers[k].project ==> h == k)
      && (forall h :: h in w.workers && w.workers[h].project == p ==> w.l.lanes[p].inFlight == Some(h))
  {
    WiredAlways(actions);
    var w := Execute(actions);
    if p in w.l.lanes { assert w.l.lanes[p].inFlight.value in w.workers; }
  }

  /** Requests of a project start in the order in which they were admitted, each at most once. */
  lemma StartsInOrder(actions: seq<Action>, i: nat, j: nat)
    requires i < j < |Execute(actions).log|
    requires var log := Execute(actions).log;
      Starts(log[i]).Some? && Starts(log[j]).Some? && Starts(log[i]).value.project == Starts(log[j]).value.project
    ensures var log := Execute(actions).log; Starts(log[i]).value.ticket < Starts(log[j]).value.ticket
  {
    var w := Execute(actions);
    var log, first, second := w.log, Starts(w.log[i]).value, Starts(w.log[j]).value;
    LatestWinsAlways(actions);
    assert TimelyAt(log, j) && TimelyAt(log, i);
    AccountedAlways(actions, first);
    if first == second {
      OutcomesTwice(log, i, j, first);
    } else {
      var a :| 0 <= a < i + 1 && Admits(log[a]) == Some(first);
      if second.ticket < first.ticket { assert Overtakes(log, a, second); }
      if second.ticket == first.ticket { assert false; }
    }
  }

  lemma {:induction false} OutcomesTwice(log: seq<Event>, i: nat, j: nat, r: Request)
    requires i < j < |log| && Starts(log[i]) == Some(r) && Starts(log[j]) == Some(r)
    ensures Outcomes(log, r) >= 2
    decreases |log|
  {
    var front := log[..|log| - 1];
    if j < |log| - 1 { OutcomesTwice(front, i, j, r); } else { OutcomesOnce(front, i, r); }
  }

  lemma {:induction false} OutcomesOnce(log: seq<Event>, i: nat, r: Request)
    requires i < |log| && Starts(log[i]) == Some(r)
    ensures Outcomes(log, r) >= 1
  {
    if i < |log| - 1 { OutcomesOnce(log[..|log| - 1], i, r); }
  }

  /** Every admitted request has exactly one fate: it is the waiting successor, or it was once started, replaced or dropped. */
  lemma EveryRequestHasOneFate(actions: seq<Action>, r: Request)
    ensures var w := Execute(actions);
      && (WasAdmitted(w.log, |w.log|, r) <==> Admissions(w.log, r) == 1)
      && (if WasAdmitted(w.log, |w.log|, r) then Outcomes(w.log, r) + One(IsWaiting(w, r)) == 1
          else Outcomes(w.log, r) == 0 && !IsWaiting(w, r))
  {
    AccountedAlways(actions, r);
    AdmittedCounts(Execute(actions).log, r);
  }

  lemma {:induction false} AdmittedCounts(log: seq<Event>, r: Request)
    ensures WasAdmitted(log, |log|, r) <==> Admissions(log, r) > 0
  {
    if log != [] {
      var front := log[..|log| - 1];
      AdmittedCounts(front, r);
      assert front + [log[|log| - 1]] == log;
      AdmittedLater(front, log[|log| - 1], r);
    }
  }

  /** A request that gave way did so to a later one of its project or to a cancel of its project. */
  lemma DiscardedForAReason(actions: seq<Action>, j: nat)
    requires j < |Execute(actions).log| && Discards(Execute(actions).log[j]).Some?
    ensures var e := Execute(actions).log[j]; var r := Discards(e).value;
      || (Admits(e).Some? && Admits(e).value.project == r.project && Admits(e).value.ticket > r.ticket)
      || (e.Cancelled? && e.project == r.project)
  {
    LatestWinsAlways(actions);
    assert TimelyAt(Execute(actions).log, j);
  }

  /** Nothing admitted before a cancel of its project becomes in-flight, or visible, after it. */
  lemma CancelBarrier(actions: seq<Action>, i: nat, j: nat, r: Request)
    requires i < j < |Execute(actions).log|
    requires var log := Execute(actions).log;
      log[i].Cancelled? && log[i].project == r.project && (Starts(log[j]) == Some(r) || log[j] == Published(r))
    ensures !WasAdmitted(Execute(actions).log, i, r)
  {
    LatestWinsAlways(actions);
    var log := Execute(actions).log;
    assert TimelyAt(log, j);
    if WasAdmitted(log, i, r) { assert Overtakes(log, i, r); }
  }

  /** A checkpoint becomes visible only for the newest request its project has admitted. */
  lemma PublishedIsNewest(actions: seq<Action>, i: nat, j: nat)
    requires i < j < |Execute(actions).log|
    requires var log := Execute(actions).log;
      log[j].Published? && Admits(log[i]).Some? && Admits(log[i]).value.project == log[j].request.project
    ensures var log := Execute(actions).log; Admits(log[i]).value.ticket <= log[j].request.ticket
  {
    LatestWinsAlways(actions);
    var log := Execute(actions).log;
    assert TimelyAt(log, j);
    var overtakes := Overtakes(log, i, log[j].request);
  }

  /** While a successor waits, the running publication has been asked to stop, unless it is already visible. */
  lemma SuccessorMeansStop(actions: seq<Action>, p: string)
    requires Waiting(Execute(actions).l, p).Some?
    ensures var w := Execute(actions);
      InFlight(w.l, p).Some? && InFlight(w.l, p).value in w.workers && InFlight(w.l, p).value in w.l.stops
      && StoppedOrVisible(w, InFlight(w.l, p).value)
  {
    WiredAlways(actions);
    LatestWinsAlways(actions);
    var w := Execute(actions);
    var h, r := InFlight(w.l, p).value, Waiting(w.l, p).value;
    assert h in w.workers;
    var a :| 0 <= a < |w.log| && Admits(w.log[a]) == Some(r);
    assert Overtakes(w.log, a, w.workers[h]);
  }

  // ---- no stop is lost to a process that was being started ----

  /** The process was signalled through a stop request, or its start was refused. */
  ghost predicate Tells(e: Event, h: nat, pid: nat) {
    || e == Spawned(h, pid, true)
    || (e.Queued? && e.handle == h && e.told == Some(pid))
    || (e.Cancelled? && e.running == Some(h) && e.told == Some(pid))
  }

  ghost predicate Told(log: seq<Event>, h: nat, pid: nat) {
    exists i :: 0 <= i < |log| && Tells(log[i], h, pid)
  }

  ghost predicate StopsReach(w: World) {
    forall h :: h in w.workers && h in w.l.stops && w.l.stops[h].requested && w.l.stops[h].pid.Some? ==>
      Told(w.log, h, w.l.stops[h].pid.value)
  }

  lemma ToldNext(log: seq<Event>, e: Event, h: nat, pid: nat)
    requires Told(log, h, pid) || Tells(e, h, pid)
    ensures Told(log + [e], h, pid)
  {
    if Tells(e, h, pid) {
      assert Tells((log + [e])[|log|], h, pid);
    } else {
      var i :| 0 <= i < |log| && Tells(log[i], h, pid);
      assert Tells((log + [e])[i], h, pid);
    }
  }

  lemma StopsReachStep(w: World, a: Action)
    requires Wired(w) && StopsReach(w) && Enabled(w, a)
    ensures StopsReach(Step(w, a))
  {
    hide SuccessorsNewer;
    var next := Step(w, a);
    var e := next.log[|w.log|];
    assert next.log == w.log + [e];
    forall h | h in next.workers && h in next.l.stops && next.l.stops[h].requested && next.l.stops[h].pid.Some?
      ensures Told(next.log, h, next.l.stops[h].pid.value)
    {
      hide Told;
      var pid := next.l.stops[h].pid.value;
      assert h in w.workers;
      assert Told(w.log, h, pid) || Tells(e, h, pid);
      ToldNext(w.log, e, h, pid);
    }
  }

  /** In every run, whenever a running publication has been asked to stop, its process has been signalled or refused. */
  lemma {:induction false} StopsAlwaysReach(actions: seq<Action>)
    ensures StopsReach(Execute(actions))
  {
    if actions != [] {
      hide Wired, Step, StopsReach;
      var front := actions[..|actions| - 1];
      StopsAlwaysReach(front);
      WiredAlways(front);
      if Enabled(Execute(front), actions[|actions| - 1]) { StopsReachStep(Execute(front), actions[|actions| - 1]); }
    }
  }
}
