/** What the lanes do not prevent: a publication that nobody has told to stop goes on, commits, and is not signalled. */
module LaneProgress {
  import opened Wrappers
  import opened PublicationLane
  import opened LaneTrace

  // ---- what the log says about a worker ----

  ghost predicate Started(log: seq<Event>, r: Request) {
    exists i :: 0 <= i < |log| && Starts(log[i]) == Some(r)
  }

  /** The process attached to a handle: the last one spawned, unless it has exited or an inner scope was left since. */
  ghost function Attached(log: seq<Event>, h: nat, r: Request): Option<nat>
    decreases |log|, 0
  {
    if log == [] then None
    else AttachedBy(log[..|log| - 1], log[|log| - 1], h, r)
  }

  ghost function AttachedBy(log: seq<Event>, e: Event, h: nat, r: Request): Option<nat>
    decreases |log|, 1
  {
    match e
    case Spawned(k, pid, _) => if k == h && Published(r) !in log then Some(pid) else Attached(log, h, r)
    case Exited(k, pid) => if k == h && Attached(log, h, r) == Some(pid) then None else Attached(log, h, r)
    case Left(k, _) => if k == h then None else Attached(log, h, r)
    case _ => Attached(log, h, r)
  }

  /** The scopes open on a handle: the worker's own, and the inner ones entered and not left. */
  ghost function Scopes(log: seq<Event>, h: nat): int {
    if log == [] then 1
    else ScopesBy(Scopes(log[..|log| - 1], h), log[|log| - 1], h)
  }

  ghost function ScopesBy(scopes: int, e: Event, h: nat): int {
    match e
    case Entered(k) => if k == h then scopes + 1 else scopes
    case Left(k, _) => if k == h then scopes - 1 else scopes
    case _ => scopes
  }

  /** The stop handle of a worker is what the log makes of it. */
  ghost predicate Settled(w: World, h: nat)
    requires h in w.workers && h in w.l.stops
  {
    var r, s := w.workers[h], w.l.stops[h];
    && Started(w.log, r)
    && (s.cutoffCrossed <==> Published(r) in w.log)
    && (s.requested ==> Overtaken(w.log, |w.log|, r) && !s.cutoffCrossed)
    && s.pid == Attached(w.log, h, r) && s.scopes == Scopes(w.log, h)
  }

  ghost predicate AllSettled(w: World) {
    && (forall h :: h in w.workers ==> h in w.l.stops && Settled(w, h))
    && (forall r :: Published(r) in w.log ==> Started(w.log, r))
    && (forall h, r :: h >= w.l.handles ==> Attached(w.log, h, r) == None)
    && (forall h :: h >= w.l.handles ==> Scopes(w.log, h) == 1)
  }

  lemma StartedNext(log: seq<Event>, e: Event, r: Request)
    ensures Started(log + [e], r) <==> Started(log, r) || Starts(e) == Some(r)
  {
    if Started(log, r) {
      var i :| 0 <= i < |log| && Starts(log[i]) == Some(r);
      assert Starts((log + [e])[i]) == Some(r);
    }
    if Starts(e) == Some(r) { assert Starts((log + [e])[|log|]) == Some(r); }
  }

  lemma AttachedNext(log: seq<Event>, e: Event, h: nat, r: Request)
    ensures Attached(log + [e], h, r) == AttachedBy(log, e, h, r)
    ensures Scopes(log + [e], h) == ScopesBy(Scopes(log, h), e, h)
  {
    assert (log + [e])[..|log|] == log;
  }

  /** A request about to start has not been published. */
  lemma NotYetPublished(w: World, r: Request)
    requires LatestWins(w) && AllSettled(w) && Accounted(w, r)
    requires r.ticket >= w.tickets || IsWaiting(w, r)
    ensures Published(r) !in w.log
  {
    hide Current;
    if Published(r) in w.log {
      var i :| 0 <= i < |w.log| && Starts(w.log[i]) == Some(r);
      assert TimelyAt(w.log, i);
      OutcomesOnce(w.log, i, r);
    }
  }

  lemma SettledNext(w: World, next: World, e: Event, h: nat)
    requires AllSettled(w) && next.log == w.log + [e]
    requires h in w.workers && h in next.workers && h in next.l.stops && next.workers[h] == w.workers[h]
    requires var r, s, t := w.workers[h], w.l.stops[h], next.l.stops[h];
      && (t.cutoffCrossed <==> s.cutoffCrossed || e == Published(r))
      && (t.requested ==> !t.cutoffCrossed)
      && (t.requested && !s.requested ==> Overtaken(next.log, |next.log|, r))
      && t.pid == AttachedBy(w.log, e, h, r) && t.scopes == ScopesBy(s.scopes, e, h)
    ensures Settled(next, h)
  {
    hide Overtaken, Attached, Scopes, Started, AttachedBy, Scopes;
    var r := w.workers[h];
    StartedNext(w.log, e, r);
    AttachedNext(w.log, e, h, r);
    OvertakenNext(w.log, next.log, e, r);
    assert Settled(w, h);
  }

  lemma SettledNew(w: World, next: World, e: Event, h: nat)
    requires LatestWins(w) && AllSettled(w) && next.log == w.log + [e]
    requires h >= w.l.handles && h in next.workers && h in next.l.stops && next.l.stops[h] == FRESH
    requires Starts(e) == Some(next.workers[h]) && Accounted(w, next.workers[h])
    requires next.workers[h].ticket >= w.tickets || IsWaiting(w, next.workers[h])
    ensures Settled(next, h)
  {
    hide Attached, Started, LatestWins, Accounted, Scopes;
    var r := next.workers[h];
    NotYetPublished(w, r);
    StartedNext(w.log, e, r);
    AttachedNext(w.log, e, h, r);
  }

  lemma RestSettled(w: World, next: World, e: Event)
    requires AllSettled(w) && next.log == w.log + [e] && next.l.handles >= w.l.handles
    requires forall r :: e == Published(r) ==> Started(w.log, r)
    requires e.Spawned? || e.Exited? || e.Entered? || e.Left? ==> e.handle < w.l.handles
    ensures forall r :: Published(r) in next.log ==> Started(next.log, r)
    ensures forall h, r :: h >= next.l.handles ==> Attached(next.log, h, r) == None
    ensures forall h :: h >= next.l.handles ==> Scopes(next.log, h) == 1
  {
    hide Attached, Started, Scopes;
    forall r | Published(r) in next.log ensures Started(next.log, r) { StartedNext(w.log, e, r); }
    forall h, r | h >= next.l.handles ensures Attached(next.log, h, r) == None { AttachedNext(w.log, e, h, r); }
    forall h | h >= next.l.handles ensures Scopes(next.log, h) == 1 { AttachedNext(w.log, e, h, Request("", 0)); }
  }

  ghost predicate Good(w: World) {
    Wired(w) && LatestWins(w) && forall r :: Accounted(w, r)
  }

  /** Whatever has started was admitted before, so its ticket has been given out. */
  lemma TicketGiven(w: World, r: Request)
    requires LatestWins(w) && Started(w.log, r)
    ensures r.ticket < w.tickets
  {
    hide Current, Overtaken;
    var i :| 0 <= i < |w.log| && Starts(w.log[i]) == Some(r);
    assert TimelyAt(w.log, i);
  }

  lemma AdmitSettled(w: World, project: string)
    requires Good(w) && AllSettled(w)
    ensures AllSettled(Step(w, Admit(project)))
  {
    hide Overtaken, Attached, Scopes, Started, LatestWins, Accounted, SuccessorsNewer;
    var next := Step(w, Admit(project));
    var e := next.log[|w.log|];
    RestSettled(w, next, e);
    forall h | h in next.workers ensures h in next.l.stops && Settled(next, h) {
      if h in w.workers {
        assert Settled(w, h);
        TicketGiven(w, w.workers[h]);
        OvertakenNext(w.log, next.log, e, w.workers[h]);
        SettledNext(w, next, e, h);
      } else {
        SettledNew(w, next, e, h);
      }
    }
  }

  lemma FinishSettled(w: World, h: nat)
    requires Good(w) && AllSettled(w) && Enabled(w, Finish(h))
    ensures AllSettled(Step(w, Finish(h)))
  {
    hide Overtaken, Attached, Scopes, Started, LatestWins, Accounted, DetachedStop;
    var next := Step(w, Finish(h));
    var e := next.log[|w.log|];
    RestSettled(w, next, e);
    forall k | k in next.workers ensures k in next.l.stops && Settled(next, k) {
      if k in w.workers {
        assert Settled(w, k);
        SettledNext(w, next, e, k);
      } else {
        SettledNew(w, next, e, k);
      }
    }
  }

  lemma CancelSettled(w: World, project: string)
    requires Good(w) && AllSettled(w)
    ensures AllSettled(Step(w, Cancel(project)))
  {
    hide Overtaken, Attached, Scopes, LatestWins, Accounted, SuccessorsNewer;
    var next := Step(w, Cancel(project));
    var e := next.log[|w.log|];
    RestSettled(w, next, e);
    forall h | h in next.workers ensures h in next.l.stops && Settled(next, h) {
      assert Settled(w, h);
      StartedWasAdmitted(w, w.workers[h]);
      OvertakenNext(w.log, next.log, e, w.workers[h]);
      SettledNext(w, next, e, h);
    }
  }

  lemma StartedWasAdmitted(w: World, r: Request)
    requires LatestWins(w) && Started(w.log, r)
    ensures WasAdmitted(w.log, |w.log|, r)
  {
    hide Current, Overtaken;
    var i :| 0 <= i < |w.log| && Starts(w.log[i]) == Some(r);
    assert TimelyAt(w.log, i);
  }

  lemma WorkerSettled(w: World, a: Action)
    requires Good(w) && AllSettled(w) && Enabled(w, a) && (a.Spawn? || a.Exit? || a.Commit? || a.Enter? || a.Leave?)
    ensures AllSettled(Step(w, a))
  {
    hide Overtaken, Attached, Scopes, Started, LatestWins, Accounted, SuccessorsNewer;
    var next := Step(w, a);
    var e := next.log[|w.log|];
    assert Settled(w, a.handle);
    RestSettled(w, next, e);
    OwnSettled(w, a);
    forall h | h in next.workers && h != a.handle ensures h in next.l.stops && Settled(next, h) {
      assert Settled(w, h);
      SettledNext(w, next, e, h);
    }
  }

  lemma OwnSettled(w: World, a: Action)
    requires Good(w) && AllSettled(w) && Enabled(w, a) && (a.Spawn? || a.Exit? || a.Commit? || a.Enter? || a.Leave?)
    ensures a.handle in Step(w, a).workers && a.handle in Step(w, a).l.stops && Settled(Step(w, a), a.handle)
  {
    hide Overtaken, Attached, Scopes, Started, LatestWins, Accounted, SuccessorsNewer;
    var next := Step(w, a);
    assert Settled(w, a.handle);
    SettledNext(w, next, next.log[|w.log|], a.handle);
  }

  lemma {:induction false} SettledAlways(actions: seq<Action>)
    ensures Good(Execute(actions)) && AllSettled(Execute(actions))
  {
    WiredAlways(actions);
    LatestWinsAlways(actions);
    forall r ensures Accounted(Execute(actions), r) { AccountedAlways(actions, r); }
    if actions != [] {
      hide Wired, Step, LatestWins, Accounted, AllSettled;
      var front, a := actions[..|actions| - 1], actions[|actions| - 1];
      SettledAlways(front);
      var w := Execute(front);
      if Enabled(w, a) {
        match a
        case Admit(project) => AdmitSettled(w, project);
        case Finish(h) => FinishSettled(w, h);
        case Cancel(project) => CancelSettled(w, project);
        case _ => WorkerSettled(w, a);
      }
    }
  }

  // ---- what that means for a running publication ----

  /**
   * In every run, a publication that is not visible yet may try to commit. The commit is refused exactly when a later
   * admission or a cancel of its project has told it to stop; otherwise it becomes visible exactly when the commit succeeds.
   */
  lemma CommitExact(actions: seq<Action>, h: nat, succeeds: bool)
    requires h in Execute(actions).workers && Published(Execute(actions).workers[h]) !in Execute(actions).log
    ensures var w := Execute(actions); var r := w.workers[h];
      && Enabled(w, Commit(h, succeeds))
      && Step(w, Commit(h, succeeds)).log
         == w.log + [if Overtaken(w.log, |w.log|, r) then Refused(r) else if succeeds then Published(r) else Unpublished(r)]
  {
    hide Overtaken, Attached, Scopes, Accounted, Timely;
    SettledAlways(actions);
    assert Settled(Execute(actions), h);
  }

  /** In every run, a process that starts is refused exactly when its publication was told to stop or is already visible. */
  lemma SpawnExact(actions: seq<Action>, h: nat, pid: nat)
    requires h in Execute(actions).workers
    ensures var w := Execute(actions); var r := w.workers[h];
      && Enabled(w, Spawn(h, pid))
      && Step(w, Spawn(h, pid)).log
         == w.log + [Spawned(h, pid, Overtaken(w.log, |w.log|, r) || Published(r) in w.log)]
  {
    hide Overtaken, Attached, Scopes, Accounted, Timely;
    SettledAlways(actions);
    assert Settled(Execute(actions), h);
  }

  /** In every run, a stop names for termination the process attached to the publication, and none once it is visible. */
  lemma SignalExact(actions: seq<Action>, h: nat)
    requires h in Execute(actions).workers
    ensures var w := Execute(actions); var r := w.workers[h];
      var told := if Published(r) in w.log then None else Attached(w.log, h, r);
      && Step(w, Admit(r.project)).log == w.log + [Queued(Request(r.project, w.tickets), Waiting(w.l, r.project), h, told)]
      && Step(w, Cancel(r.project)).log == w.log + [Cancelled(r.project, Waiting(w.l, r.project), Some(h), told)]
  {
    hide Step, Attached, Good, AllSettled;
    SettledAlways(actions);
    AdmitSignals(Execute(actions), h);
    CancelSignals(Execute(actions), h);
  }

  /**
   * In every run, a publication that polls, and an inner scope that is left, see a stop exactly when the publication was told
   * to stop and is not visible. The publication can finish exactly when every inner scope that was entered has been left.
   */
  lemma StopSeen(actions: seq<Action>, h: nat)
    requires h in Execute(actions).workers
    ensures var w := Execute(actions); var r := w.workers[h];
      var stopped := Overtaken(w.log, |w.log|, r) && Published(r) !in w.log;
      && h in w.l.stops && IsRequested(w.l.stops[h]) == stopped
      && (Enabled(w, Leave(h)) ==> Step(w, Leave(h)).log == w.log + [Left(h, stopped)])
      && (Enabled(w, Finish(h)) <==> Scopes(w.log, h) == 1)
      && (Enabled(w, Leave(h)) <==> Scopes(w.log, h) > 1)
  {
    hide Overtaken, Attached, Scopes, Accounted, Timely;
    SettledAlways(actions);
    assert Settled(Execute(actions), h);
  }

  /** In every run, a cancel finds a publication exactly when one is running for the project. */
  lemma CancelAnswers(actions: seq<Action>, project: string)
    ensures var w := Execute(actions);
      CancelRequested(w.l, project).1 <==> exists h :: h in w.workers && w.workers[h].project == project
  {
    LaneIffWorker(actions, project);
  }

  lemma AdmitSignals(w: World, h: nat)
    requires Good(w) && AllSettled(w) && h in w.workers
    ensures var r := w.workers[h];
      Step(w, Admit(r.project)).log
      == w.log + [Queued(Request(r.project, w.tickets), Waiting(w.l, r.project), h,
                         if Published(r) in w.log then None else Attached(w.log, h, r))]
  {
    hide Overtaken, Attached, Scopes, Accounted, LatestWins, Started, SuccessorsNewer;
    assert Settled(w, h);
  }

  lemma CancelSignals(w: World, h: nat)
    requires Good(w) && AllSettled(w) && h in w.workers
    ensures var r := w.workers[h];
      Step(w, Cancel(r.project)).log
      == w.log + [Cancelled(r.project, Waiting(w.l, r.project), Some(h),
                            if Published(r) in w.log then None else Attached(w.log, h, r))]
  {
    hide Overtaken, Attached, Scopes, Accounted, LatestWins, Started, SuccessorsNewer;
    assert Settled(w, h);
  }

  // ---- from an admission to a visible checkpoint ----

  lemma ExecuteNext(before: seq<Action>, a: Action)
    ensures Execute(before + [a]) == if Enabled(Execute(before), a) then Step(Execute(before), a) else Execute(before)
  {
    assert (before + [a])[..|before|] == before;
  }

  /** In every run, what is admitted to a project with no publication starts at once, and its commit makes it visible. */
  lemma IdlePublishes(actions: seq<Action>, project: string)
    requires forall h :: h in Execute(actions).workers ==> Execute(actions).workers[h].project != project
    ensures var w := Execute(actions); var r := Request(project, w.tickets); var h := w.l.handles;
      && Execute(actions + [Admit(project)]).log == w.log + [Ran(r, h)]
      && Execute(actions + [Admit(project)] + [Commit(h, true)]).log == w.log + [Ran(r, h)] + [Published(r)]
  {
    hide Execute, Overtaken, Attached, Scopes, Timely, LatestWins, Accounted;
    var w := Execute(actions);
    SettledAlways(actions);
    LaneIffWorker(actions, project);
    assert project !in w.l.lanes;
    ExecuteNext(actions, Admit(project));
    ExecuteNext(actions + [Admit(project)], Commit(w.l.handles, true));
  }

  // ---- a publication that is over ----

  /** The handle of a publication that is over is idle again. */
  ghost predicate OthersIdle(w: World) {
    forall h :: h in w.l.stops && h !in w.workers ==> w.l.stops[h] == Stop(0, false, None, false)
  }

  lemma OthersIdleStep(w: World, a: Action)
    requires Wired(w) && OthersIdle(w) && Enabled(w, a)
    ensures OthersIdle(Step(w, a))
  {
    hide SuccessorsNewer;
  }

  /** In every run, the stop handle of a publication that is over has been detached and cleared. */
  lemma {:induction false} OverIsIdle(actions: seq<Action>)
    ensures OthersIdle(Execute(actions))
  {
    if actions != [] {
      hide Wired, Step, OthersIdle;
      var front := actions[..|actions| - 1];
      OverIsIdle(front);
      WiredAlways(front);
      if Enabled(Execute(front), actions[|actions| - 1]) { OthersIdleStep(Execute(front), actions[|actions| - 1]); }
    }
  }

  /** A first scope starts from a cleared request, whatever was left; the last scope that closes clears it. */
  lemma ScopesClear(s: Stop)
    ensures BegunStop(s) == if s.scopes == 0 then Stop(1, false, None, false) else s.(scopes := s.scopes + 1)
    ensures s.scopes == 1 ==> DetachedStop(s).0 == Stop(0, false, None, false)
    ensures s.scopes > 1 ==> DetachedStop(s).0 == s.(scopes := s.scopes - 1, pid := None)
  {
  }
}
