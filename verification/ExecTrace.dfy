/** Runs of the approval registry: every interleaving of its locked sections, with a log of what happened. */
module ExecTrace {
  import opened Wrappers
  import opened ExecApprovals

  datatype Event =
    | Minted(token: Token, project: string, command: string, run: Run, at: int)
    | Began(token: Token, project: string, command: string, run: Run, at: int)
    | Burned(token: Token)
    | Started(token: Token, run: Run)
    | Finished(token: Token, left: bool)
    | Released(token: Token, left: bool, signalled: bool)
    | RunCancelled(run: Run, leaving: set<Token>, signalling: set<Token>)
    | AllCancelled(leaving: set<Token>, signalling: set<Token>)

  datatype Action =
    | Mint(project: string, command: string, run: Run, now: int, token: Token)
    | Begin(project: string, command: string, run: Run, now: int, token: Token)
    | Start(token: Token, pid: nat)
    | Complete(token: Token)
    | Drop(token: Token)
    | Cancel(run: Run)
    | CancelEvery(runs: seq<Run>)

  /** The registry, the leases handed out, the leases dropped, and the log. */
  datatype World = World(registry: Registry, leases: map<Token, Lease>, dropped: set<Token>, log: seq<Event>)

  const INITIAL := World(Registry(map[], [], map[], []), map[], {}, [])

  ghost predicate WasMinted(log: seq<Event>, token: Token) {
    exists i :: 0 <= i < |log| && log[i].Minted? && log[i].token == token
  }

  /** Tokens are drawn fresh; a lease is activated at most once, before it completes, and used until it is dropped. */
  ghost predicate Enabled(w: World, a: Action) {
    match a
    case Mint(_, _, _, _, token) => !WasMinted(w.log, token)
    case Begin(_, _, _, _, _) => true
    case Start(token, _) => token in w.leases && token !in w.dropped && !w.leases[token].completed && w.leases[token].pid.None?
    case Complete(token) => token in w.leases && token !in w.dropped && !w.leases[token].completed
    case Drop(token) => token in w.leases && token !in w.dropped
    case Cancel(_) => true
    case CancelEvery(runs) => Enumerates(runs, w.registry)
  }

  ghost function Openings(r: Registry): set<Token> {
    set run, t | run in r.active && t in r.active[run] :: t
  }

  ghost function Running(r: Registry): set<Token> {
    set run, t | run in r.active && t in r.active[run] && r.active[run][t].Some? :: t
  }

  ghost function Step(w: World, a: Action): World
    requires Enabled(w, a)
  {
    match a
    case Mint(project, command, run, now, token) =>
      var (r, granted) := Authorized(w.registry, project, command, run, now, token);
      w.(registry := r, log := if granted then w.log + [Minted(token, project, command, run, now)] else w.log)
    case Begin(project, command, run, now, token) =>
      var (r, lease) := Begun(w.registry, project, command, run, token, now);
      if lease.Some?
      then w.(registry := r, leases := w.leases[token := lease.value], log := w.log + [Began(token, project, command, run, now)])
      else w.(registry := r, log := w.log + [Burned(token)])
    case Start(token, pid) =>
      var (r, lease, ok) := Activated(w.registry, w.leases[token], pid);
      w.(registry := r, leases := w.leases[token := lease], log := if ok then w.log + [Started(token, lease.run)] else w.log)
    case Complete(token) =>
      var lease := w.leases[token];
      var (r, entry) := Unregistered(w.registry, lease);
      w.(registry := r, leases := w.leases[token := Lease(lease.run, None, None, true)], log := w.log + [Finished(token, entry.Some?)])
    case Drop(token) =>
      var lease := w.leases[token];
      if lease.completed then w.(dropped := w.dropped + {token}, log := w.log + [Released(token, false, false)])
      else
        var (r, entry) := Unregistered(w.registry, lease);
        w.(registry := r, leases := w.leases[token := lease.(execId := None)], dropped := w.dropped + {token},
           log := w.log + [Released(token, entry.Some?, entry.Some? && entry.value.Some?)])
    case Cancel(run) =>
      var (r, processes) := CancelledRun(w.registry, run);
      w.(registry := r, log := w.log + [RunCancelled(run, Table(w.registry, run).Keys, processes.Keys)])
    case CancelEvery(runs) =>
      w.(registry := CancelledAll(w.registry, runs), log := w.log + [AllCancelled(Openings(w.registry), Running(w.registry))])
  }

  /** Any sequence of actions; those that are not possible when their turn comes are skipped. */
  ghost function Execute(actions: seq<Action>): World {
    if actions == [] then INITIAL
    else
      var w := Execute(actions[..|actions| - 1]);
      var a := actions[|actions| - 1];
      if Enabled(w, a) then Step(w, a) else w
  }

  // ---- the shape of the registry ----

  ghost predicate Tidy(r: Registry) {
    && Distinct(r.order)
    && (forall t :: t in r.approvals ==> t in r.order)
    && |r.approvals| <= MAX_APPROVALS
    && (forall run :: run in r.active ==> r.active[run] != map[])
  }

  ghost predicate NoneDangling(r: Registry) {
    forall t :: t in r.order ==> t in r.approvals
  }

  ghost predicate AtMostOneDangling(r: Registry) {
    forall t, u :: t in r.order && u in r.order && t !in r.approvals && u !in r.approvals ==> t == u
  }

  /** `s` keeps some of the approvals and of the queue of `r`, and all the rest. */
  ghost predicate Fewer(s: Registry, r: Registry) {
    && (forall t :: t in s.approvals ==> t in r.approvals && s.approvals[t] == r.approvals[t])
    && (forall t :: t in s.order ==> t in r.order)
    && s.active == r.active && s.cancelled == r.cancelled
  }

  lemma FewerApprovals(s: map<Token, Approval>, r: map<Token, Approval>)
    requires forall t :: t in s ==> t in r
    ensures |s| <= |r|
  {
    FewerElements(s.Keys, r.Keys);
    assert |s| == |s.Keys| && |r| == |r.Keys|;
  }

  lemma {:induction false} FewerElements(s: set<Token>, r: set<Token>)
    requires s <= r
    ensures |s| <= |r|
  {
    if s != {} {
      var t :| t in s;
      FewerElements(s - {t}, r - {t});
    }
  }

  lemma PurgeTidy(r: Registry, now: int)
    requires Tidy(r)
    ensures Tidy(Purge(r, now)) && NoneDangling(Purge(r, now)) && Fewer(Purge(r, now), r)
    ensures forall t :: t in Purge(r, now).approvals <==> t in r.approvals && r.approvals[t].expiresAt > now
  {
    FewerApprovals(Purge(r, now).approvals, r.approvals);
  }

  /** With every approval queued, eviction ends below the limit without ever running out of queue. */
  lemma {:induction false} EvictTidy(r: Registry)
    requires Tidy(r) && NoneDangling(r)
    ensures Tidy(Evict(r)) && NoneDangling(Evict(r)) && Fewer(Evict(r), r) && |Evict(r).approvals| < MAX_APPROVALS
    ensures |r.approvals| >= MAX_APPROVALS ==> r.order != []
    decreases |r.order|
  {
    if |r.approvals| >= MAX_APPROVALS {
      assert r.order == [] ==> r.approvals == map[];
      var next := r.(approvals := r.approvals - {r.order[0]}, order := r.order[1..]);
      FewerApprovals(next.approvals, r.approvals);
      assert forall t :: t in r.order <==> t == r.order[0] || t in next.order;
      EvictTidy(next);
    }
  }

  lemma AuthorizedTidy(r: Registry, project: string, command: string, run: Run, now: int, token: Token)
    requires Tidy(r) && token !in r.order
    ensures var (s, granted) := Authorized(r, project, command, run, now, token);
      && Tidy(s) && (granted ==> NoneDangling(s)) && (!granted ==> s == r)
      && s.active == r.active && s.cancelled == r.cancelled
      && (granted ==> token in s.approvals && s.approvals[token] == Approval(project, command, run, now + APPROVAL_TTL))
      && (forall t :: t in s.approvals && t != token ==> t in r.approvals && s.approvals[t] == r.approvals[t])
      && (forall t :: t in s.order ==> t == token || t in r.order)
  {
    if run !in r.cancelled {
      PurgeTidy(r, now);
      EvictTidy(Purge(r, now));
      var room := Evict(Purge(r, now));
      var s := Authorized(r, project, command, run, now, token).0;
      assert |s.approvals| == |room.approvals| + 1;
    }
  }

  ghost function Burnt(r: Registry, token: Token): Registry { r.(approvals := r.approvals - {token}) }

  /** A begin on the purged registry: without the approval nothing, else it goes, and only a match opens an execution. */
  lemma BegunCases(r: Registry, project: string, command: string, run: Run, token: Token, now: int)
    ensures var (s, lease) := Begun(r, project, command, run, token, now); var purged := Purge(r, now);
      if token !in purged.approvals then s == purged && lease.None?
      else
        var a := purged.approvals[token];
        if a.project == project && a.command == command && a.run == run && run !in r.cancelled
        then s == Burnt(purged, token).(active := Opened(purged.active, run, token)) && lease == Some(Lease(run, Some(token), None, false))
        else s == Burnt(purged, token) && lease.None?
  {
    hide Purge, Opened;
  }

  lemma BegunTidy(r: Registry, project: string, command: string, run: Run, token: Token, now: int)
    requires Tidy(r)
    ensures var (s, lease) := Begun(r, project, command, run, token, now);
      && Tidy(s) && AtMostOneDangling(s) && s.cancelled == r.cancelled
      && token !in s.approvals
      && (forall t :: t in s.approvals ==> t in r.approvals && s.approvals[t] == r.approvals[t])
      && (forall t :: t in s.order ==> t in r.order)
      && (lease.None? ==> s.active == r.active)
      && (lease.Some? ==>
            && s.active == Opened(r.active, run, token) && lease.value == Lease(run, Some(token), None, false)
            && token in r.approvals && run !in r.cancelled
            && r.approvals[token].project == project && r.approvals[token].command == command && r.approvals[token].run == run
            && r.approvals[token].expiresAt > now)
  {
    PurgeTidy(r, now);
    var purged := Purge(r, now);
    NoneIsAtMostOne(purged);
    BegunCases(r, project, command, run, token, now);
    hide Begun, Purge, Opened, Tidy, NoneDangling, AtMostOneDangling;
    BurnTidy(purged, token);
    OpenedTidy(Burnt(purged, token), run, token);
  }

  lemma BurnTidy(r: Registry, token: Token)
    requires Tidy(r) && NoneDangling(r)
    ensures var s := r.(approvals := r.approvals - {token});
      Tidy(s) && AtMostOneDangling(s)
  {
    FewerApprovals(r.approvals - {token}, r.approvals);
  }

  lemma NoneIsAtMostOne(r: Registry)
    ensures NoneDangling(r) ==> AtMostOneDangling(r)
  {
  }

  lemma OpenedTidy(r: Registry, run: Run, token: Token)
    requires Tidy(r) && AtMostOneDangling(r)
    ensures var s := r.(active := Opened(r.active, run, token)); Tidy(s) && AtMostOneDangling(s)
  {
    assert token in Opened(r.active, run, token)[run];
  }

  lemma CancelledRunTidy(r: Registry, run: Run)
    requires Tidy(r)
    ensures var s := CancelledRun(r, run).0;
      && Tidy(s) && NoneDangling(s)
      && (forall t :: t in s.approvals ==> t in r.approvals && s.approvals[t] == r.approvals[t] && r.approvals[t].run != run)
      && (forall t :: t in s.order ==> t in r.order)
      && s.active == r.active - {run}
  {
    FewerApprovals(CancelledRun(r, run).0.approvals, r.approvals);
  }

  lemma UnregisteredTidy(r: Registry, lease: Lease)
    requires Tidy(r)
    ensures var (s, entry) := Unregistered(r, lease);
      && Tidy(s) && s.approvals == r.approvals && s.order == r.order && s.cancelled == r.cancelled
      && (entry.Some? <==> lease.execId.Some? && IsActive(r, lease.run, lease.execId.value))
      && (entry.Some? ==> entry.value == r.active[lease.run][lease.execId.value])
      && (forall run, t :: IsActive(s, run, t) <==> IsActive(r, run, t) && !(run == lease.run && Some(t) == lease.execId))
      && (forall run, t :: IsActive(s, run, t) ==> s.active[run][t] == r.active[run][t])
  {
    if lease.execId.Some? && lease.run in r.active {
      var rest := r.active[lease.run] - {lease.execId.value};
      var s := Unregistered(r, lease).0;
      forall run, t
        ensures IsActive(s, run, t) <==> IsActive(r, run, t) && !(run == lease.run && Some(t) == lease.execId)
      {
        if run == lease.run { assert t in rest <==> t in r.active[run] && t != lease.execId.value; }
      }
    }
  }

  // ---- the memory of cancelled runs ----

  /** Remembering runs, one after the other, when each is new. */
  ghost predicate AllNew(cancelled: seq<Run>, runs: seq<Run>) {
    forall i :: 0 <= i < |runs| ==> runs[i] !in RememberAll(cancelled, runs[..i])
  }

  lemma {:induction false} RememberSlides(cancelled: seq<Run>, run: Run, later: seq<Run>)
    requires |cancelled| <= MAX_CANCELLED_RUNS && run !in cancelled
    requires AllNew(Remember(cancelled, run), later) && |later| < MAX_CANCELLED_RUNS
    ensures |RememberAll(Remember(cancelled, run), later)| <= MAX_CANCELLED_RUNS
    ensures var queue := RememberAll(Remember(cancelled, run), later);
            |queue| > |later| && queue[|queue| - 1 - |later|] == run
    decreases |later|
  {
    var first := Remember(cancelled, run);
    if later != [] {
      var front, last := later[..|later| - 1], later[|later| - 1];
      assert AllNew(first, front) by {
        forall i | 0 <= i < |front| ensures front[i] !in RememberAll(first, front[..i]) {
          assert front[..i] == later[..i];
        }
      }
      RememberSlides(cancelled, run, front);
      assert last !in RememberAll(first, front);
      SlideOnce(RememberAll(first, front), last, |front|, run);
    }
  }

  lemma SlideOnce(queue: seq<Run>, last: Run, place: nat, run: Run)
    requires |queue| <= MAX_CANCELLED_RUNS && last !in queue
    requires place < |queue| && place < MAX_CANCELLED_RUNS - 1 && queue[|queue| - 1 - place] == run
    ensures var after := Remember(queue, last);
            && |after| <= MAX_CANCELLED_RUNS && place + 1 < |after| && after[|after| - 2 - place] == run
  {
  }

  /** A newly recorded cancelled run is still remembered after the next 255 newly recorded runs. */
  lemma CancelRemembered(cancelled: seq<Run>, run: Run, later: seq<Run>)
    requires |cancelled| <= MAX_CANCELLED_RUNS && run !in cancelled
    requires AllNew(Remember(cancelled, run), later) && |later| <= 255
    ensures run in RememberAll(Remember(cancelled, run), later)
  {
    RememberSlides(cancelled, run, later);
  }

  // ---- every execution is begun on a live approval of its own ----

  /** What ends the life of an approval of `token` for `run`. */
  ghost predicate Ends(e: Event, token: Token, run: Run) {
    || (e.RunCancelled? && e.run == run) || e.AllCancelled?
    || (e.Began? && e.token == token) || (e.Burned? && e.token == token)
  }

  ghost predicate NothingEnds(log: seq<Event>, from: int, to: int, token: Token, run: Run)
    requires to <= |log|
  {
    forall k :: 0 <= from < k < to ==> !Ends(log[k], token, run)
  }

  /** The event at `i` minted this approval and nothing has ended it before `to`. */
  ghost predicate Backs(log: seq<Event>, i: int, to: int, token: Token, a: Approval)
    requires to <= |log|
  {
    && 0 <= i < to
    && log[i] == Minted(token, a.project, a.command, a.run, a.expiresAt - APPROVAL_TTL)
    && NothingEnds(log, i, to, token, a.run)
  }

  ghost predicate Backed(log: seq<Event>, to: nat, token: Token, a: Approval)
    requires to <= |log|
  {
    exists i :: Backs(log, i, to, token, a)
  }

  /** A begin rests on a mint of the same token for the same project, command and run, less than 30 seconds old. */
  ghost predicate Justified(log: seq<Event>, j: nat)
    requires j < |log|
  {
    log[j].Began? ==>
      exists a: Approval ::
        && a.project == log[j].project && a.command == log[j].command && a.run == log[j].run
        && log[j].at < a.expiresAt
        && Backed(log, j, log[j].token, a)
  }

  ghost predicate MintedOnce(log: seq<Event>) {
    forall i, j :: 0 <= i < j < |log| && log[i].Minted? && log[j].Minted? ==> log[i].token != log[j].token
  }

  ghost predicate Approvals(w: World) {
    && Tidy(w.registry) && AtMostOneDangling(w.registry) && |w.registry.cancelled| <= MAX_CANCELLED_RUNS
    && MintedOnce(w.log)
    && (forall t :: t in w.registry.order || t in w.leases ==> WasMinted(w.log, t))
    && (forall t :: t in w.registry.approvals ==> t !in w.leases && Backed(w.log, |w.log|, t, w.registry.approvals[t]))
    && (forall j :: 0 <= j < |w.log| ==> Justified(w.log, j))
  }

  lemma BackedLater(log: seq<Event>, e: Event, token: Token, a: Approval)
    requires Backed(log, |log|, token, a) && !Ends(e, token, a.run)
    ensures Backed(log + [e], |log| + 1, token, a)
  {
    var i :| Backs(log, i, |log|, token, a);
    assert Backs(log + [e], i, |log| + 1, token, a);
  }

  lemma BackedEarlier(log: seq<Event>, e: Event, to: nat, token: Token, a: Approval)
    requires to <= |log| && Backed(log, to, token, a)
    ensures Backed(log + [e], to, token, a)
  {
    var i :| Backs(log, i, to, token, a);
    assert Backs(log + [e], i, to, token, a);
  }

  lemma MintedLater(log: seq<Event>, e: Event, token: Token)
    requires WasMinted(log, token)
    ensures WasMinted(log + [e], token)
  {
    var i :| 0 <= i < |log| && log[i].Minted? && log[i].token == token;
    assert (log + [e])[i] == log[i];
  }

  lemma JustifiedLater(log: seq<Event>, e: Event)
    requires forall j :: 0 <= j < |log| ==> Justified(log, j)
    ensures forall j :: 0 <= j < |log| ==> Justified(log + [e], j)
  {
    forall j | 0 <= j < |log| ensures Justified(log + [e], j) {
      assert (log + [e])[j] == log[j];
      if log[j].Began? {
        assert Justified(log, j);
        var a: Approval :| a.project == log[j].project && a.command == log[j].command && a.run == log[j].run
                           && log[j].at < a.expiresAt && Backed(log, j, log[j].token, a);
        BackedEarlier(log, e, j, log[j].token, a);
      }
    }
  }

  /** A step that logs one event, mints nothing and keeps only approvals the event does not end. */
  lemma ApprovalsKept(w: World, next: World, e: Event)
    requires Approvals(w) && next.log == w.log + [e] && !e.Minted?
    requires Tidy(next.registry) && AtMostOneDangling(next.registry) && |next.registry.cancelled| <= MAX_CANCELLED_RUNS
    requires forall t :: t in next.registry.order ==> t in w.registry.order
    requires forall t :: t in next.leases ==> t in w.leases || t in w.registry.order
    requires forall t :: t in next.registry.approvals ==>
               && t in w.registry.approvals && next.registry.approvals[t] == w.registry.approvals[t]
               && t !in next.leases && !Ends(e, t, w.registry.approvals[t].run)
    requires Justified(next.log, |w.log|)
    ensures Approvals(next)
  {
    hide Justified, Backed, Ends, Tidy, AtMostOneDangling, WasMinted;
    JustifiedLater(w.log, e);
    forall t | t in next.registry.order || t in next.leases ensures WasMinted(next.log, t) {
      MintedLater(w.log, e, t);
    }
    forall t | t in next.registry.approvals ensures Backed(next.log, |next.log|, t, next.registry.approvals[t]) {
      BackedLater(w.log, e, t, w.registry.approvals[t]);
    }
  }

  lemma ApprovalsMint(w: World, project: string, command: string, run: Run, now: int, token: Token)
    requires Approvals(w) && !WasMinted(w.log, token)
    ensures Approvals(Step(w, Mint(project, command, run, now, token)))
  {
    hide Justified, Backed, Authorized, Tidy, WasMinted;
    assert token !in w.registry.order;
    AuthorizedTidy(w.registry, project, command, run, now, token);
    var granted := Authorized(w.registry, project, command, run, now, token).1;
    var next := Step(w, Mint(project, command, run, now, token));
    if granted {
      MintStaysOnce(w.log, Minted(token, project, command, run, now));
      var e := Minted(token, project, command, run, now);
      JustifiedLater(w.log, e);
      MintJustified(w.log, e);
      forall t | t in next.registry.order || t in next.leases ensures WasMinted(next.log, t) {
        if t == token { MintMinted(w.log, e); } else { MintedLater(w.log, e, t); }
      }
      forall t | t in next.registry.approvals ensures Backed(next.log, |next.log|, t, next.registry.approvals[t]) {
        if t == token { MintBacks(w.log, e, next.registry.approvals[t]); } else { BackedLater(w.log, e, t, w.registry.approvals[t]); }
      }
      assert token !in w.leases;
    }
  }

  lemma MintMinted(log: seq<Event>, e: Event)
    requires e.Minted?
    ensures WasMinted(log + [e], e.token)
  {
    assert (log + [e])[|log|] == e;
  }

  lemma MintStaysOnce(log: seq<Event>, e: Event)
    requires MintedOnce(log) && e.Minted? && !WasMinted(log, e.token)
    ensures MintedOnce(log + [e])
  {
  }

  lemma MintJustified(log: seq<Event>, e: Event)
    requires !e.Began?
    ensures Justified(log + [e], |log|)
  {
  }

  lemma MintBacks(log: seq<Event>, e: Event, a: Approval)
    requires e.Minted? && e == Minted(e.token, a.project, a.command, a.run, a.expiresAt - APPROVAL_TTL)
    ensures Backed(log + [e], |log| + 1, e.token, a)
  {
    assert Backs(log + [e], |log|, |log| + 1, e.token, a);
  }

  lemma ApprovalsBegin(w: World, project: string, command: string, run: Run, now: int, token: Token)
    requires Approvals(w)
    ensures Approvals(Step(w, Begin(project, command, run, now, token)))
  {
    hide Begun, Backed;
    BegunTidy(w.registry, project, command, run, token, now);
    var (r, lease) := Begun(w.registry, project, command, run, token, now);
    var next := Step(w, Begin(project, command, run, now, token));
    if lease.Some? {
      var e := Began(token, project, command, run, now);
      BackedEarlier(w.log, e, |w.log|, token, w.registry.approvals[token]);
      assert next.log[|w.log|] == e;
      ApprovalsKept(w, next, e);
    } else {
      ApprovalsKept(w, next, Burned(token));
    }
  }

  lemma ApprovalsCancel(w: World, run: Run)
    requires Approvals(w)
    ensures Approvals(Step(w, Cancel(run)))
  {
    hide CancelledRun, Backed;
    CancelledRunTidy(w.registry, run);
    var next := Step(w, Cancel(run));
    RememberBound(w.registry, run);
    ApprovalsKept(w, next, next.log[|w.log|]);
  }

  lemma RememberBound(r: Registry, run: Run)
    requires |r.cancelled| <= MAX_CANCELLED_RUNS
    ensures |CancelledRun(r, run).0.cancelled| <= MAX_CANCELLED_RUNS
  {
  }

  lemma {:induction false} RememberAllBound(cancelled: seq<Run>, runs: seq<Run>)
    requires |cancelled| <= MAX_CANCELLED_RUNS
    ensures |RememberAll(cancelled, runs)| <= MAX_CANCELLED_RUNS
  {
    if runs != [] { RememberAllBound(cancelled, runs[..|runs| - 1]); }
  }

  lemma ApprovalsOther(w: World, a: Action)
    requires Approvals(w) && Enabled(w, a) && (a.Start? || a.Complete? || a.Drop? || a.CancelEvery?)
    ensures Approvals(Step(w, a))
  {
    hide Backed, Tidy, WasMinted, Justified, Unregistered, Activated, RememberAll, Openings, Running;
    var next := Step(w, a);
    if next.log != w.log && !next.log[|w.log|].Began? { assert next.log == w.log + [next.log[|w.log|]]; MintJustified(w.log, next.log[|w.log|]); }
    match a
    case Start(token, pid) =>
      StartedTidy(w.registry, w.leases[token], pid);
      if next.log != w.log { ApprovalsKept(w, next, next.log[|w.log|]); }
    case Complete(token) =>
      UnregisteredTidy(w.registry, w.leases[token]);
      ApprovalsKept(w, next, next.log[|w.log|]);
    case Drop(token) =>
      UnregisteredTidy(w.registry, w.leases[token]);
      ApprovalsKept(w, next, next.log[|w.log|]);
    case CancelEvery(runs) =>
      RememberAllBound(w.registry.cancelled, runs);
      EmptyTidy(next.registry);
      ApprovalsKept(w, next, next.log[|w.log|]);
  }

  lemma EmptyTidy(r: Registry)
    requires r.approvals == map[] && r.order == [] && r.active == map[]
    ensures Tidy(r)
  {
  }

  lemma StartedTidy(r: Registry, lease: Lease, pid: nat)
    requires Tidy(r)
    ensures var (s, after, ok) := Activated(r, lease, pid);
      && Tidy(s) && s.approvals == r.approvals && s.order == r.order && s.cancelled == r.cancelled
      && (forall run, t :: IsActive(s, run, t) <==> IsActive(r, run, t))
      && (!ok ==> s == r && after == lease)
      && (ok ==> lease.execId.Some? && IsActive(r, lease.run, lease.execId.value) && after == lease.(pid := Some(pid)))
      && (forall run, t :: IsActive(s, run, t) ==>
            s.active[run][t] == if ok && run == lease.run && Some(t) == lease.execId then Some(pid) else r.active[run][t])
  {
  }

  lemma ApprovalsStep(w: World, a: Action)
    requires Approvals(w) && Enabled(w, a)
    ensures Approvals(Step(w, a))
  {
    hide Approvals, Step;
    match a
    case Mint(project, command, run, now, token) => ApprovalsMint(w, project, command, run, now, token);
    case Begin(project, command, run, now, token) => ApprovalsBegin(w, project, command, run, now, token);
    case Cancel(run) => ApprovalsCancel(w, run);
    case _ => ApprovalsOther(w, a);
  }

  lemma {:induction false} ApprovalsAlways(actions: seq<Action>)
    ensures Approvals(Execute(actions))
  {
    if actions != [] {
      hide Approvals, Step;
      var front := actions[..|actions| - 1];
      ApprovalsAlways(front);
      if Enabled(Execute(front), actions[|actions| - 1]) {
        ApprovalsStep(Execute(front), actions[|actions| - 1]);
      }
    }
  }

  /**
   * Over every run, a successful begin has exactly one mint of its token, earlier, for the same project, command
   * and run, less than 30 seconds before; no cancel of that run, no cancel of all and no other begin of the token lies between.
   */
  lemma BeginHasOneMint(actions: seq<Action>, j: nat) returns (i: nat)
    requires j < |Execute(actions).log| && Execute(actions).log[j].Began?
    ensures i < j
    ensures var log, e := Execute(actions).log, Execute(actions).log[j];
      && log[i].Minted? && log[i] == Minted(e.token, e.project, e.command, e.run, log[i].at)
      && e.at < log[i].at + 30
      && (forall k :: i < k < j ==> !Ends(log[k], e.token, e.run))
      && (forall k :: 0 <= k < |log| && log[k].Minted? && log[k].token == e.token ==> k == i)
  {
    var log, e := Execute(actions).log, Execute(actions).log[j];
    ApprovalsAlways(actions);
    assert Justified(log, j);
    var a: Approval :| a.project == e.project && a.command == e.command && a.run == e.run
                       && e.at < a.expiresAt && Backed(log, j, e.token, a);
    i :| Backs(log, i, j, e.token, a);
  }

  /** A token that has been used in a begin, granted or refused, never opens an execution again. */
  lemma UsedTokenIsSpent(actions: seq<Action>, m: nat, i: nat, j: nat)
    requires m < i < j < |Execute(actions).log|
    requires var log := Execute(actions).log;
      log[m].Minted? && (log[i].Burned? || log[i].Began?) && log[i].token == log[m].token
    ensures var log := Execute(actions).log; !(log[j].Began? && log[j].token == log[m].token)
  {
    var log := Execute(actions).log;
    if log[j].Began? && log[j].token == log[m].token {
      var k := BeginHasOneMint(actions, j);
      assert k == m;
      assert Ends(log[i], log[j].token, log[j].run);
    }
  }

  /** A begin with the wrong project, command or run is refused and leaves the token unusable. */
  lemma MismatchBurns(w: World, project: string, command: string, run: Run, now: int, token: Token)
    requires token in w.registry.approvals
    requires var a := w.registry.approvals[token]; a.project != project || a.command != command || a.run != run
    ensures var next := Step(w, Begin(project, command, run, now, token));
      && token !in next.registry.approvals && next.leases == w.leases && next.log == w.log + [Burned(token)]
      && next.registry.active == w.registry.active
  {
    hide Retain;
  }

  lemma {:induction false} LogGrows(before: seq<Action>, later: seq<Action>)
    ensures Execute(before).log <= Execute(before + later).log
  {
    hide Enabled;
    if later == [] {
      assert before + later == before;
    } else {
      var front := later[..|later| - 1];
      LogGrows(before, front);
      assert (before + later)[..|before + later| - 1] == before + front;
    }
  }

  lemma MintOf(actions: seq<Action>, token: Token) returns (m: nat)
    requires token in Execute(actions).registry.approvals
    ensures var log := Execute(actions).log; m < |log| && log[m].Minted? && log[m].token == token
  {
    var w := Execute(actions);
    ApprovalsAlways(actions);
    assert Backed(w.log, |w.log|, token, w.registry.approvals[token]);
    m :| Backs(w.log, m, |w.log|, token, w.registry.approvals[token]);
  }

  /** Over every run, a token whose begin named the wrong project, command or run never opens an execution afterwards. */
  lemma MismatchIsFinal(before: seq<Action>, project: string, command: string, run: Run, now: int, token: Token,
                        later: seq<Action>, j: nat)
    requires var r := Execute(before).registry;
      token in r.approvals
      && (r.approvals[token].project != project || r.approvals[token].command != command || r.approvals[token].run != run)
    requires |Execute(before).log| <= j < |Execute(before + [Begin(project, command, run, now, token)] + later).log|
    ensures var log := Execute(before + [Begin(project, command, run, now, token)] + later).log;
      !(log[j].Began? && log[j].token == token)
  {
    var a := Begin(project, command, run, now, token);
    var w := Execute(before);
    var log := Execute(before + [a] + later).log;
    var m := MintOf(before, token);
    MismatchBurns(w, project, command, run, now, token);
    ExecuteNext(before, a);
    hide Step, Execute;
    LogGrows(before + [a], later);
    var i := |w.log|;
    assert log[i] == Burned(token) && log[m] == w.log[m];
    if j > i { UsedTokenIsSpent(before + [a] + later, m, i, j); }
  }

  /** Eviction that never finds the queue empty while there are too many approvals. */
  ghost predicate EvictsByQueue(r: Registry)
    decreases |r.order|
  {
    |r.approvals| < MAX_APPROVALS
    || (r.order != [] && EvictsByQueue(r.(approvals := r.approvals - {r.order[0]}, order := r.order[1..])))
  }

  lemma {:induction false} TidyEvictsByQueue(r: Registry)
    requires Tidy(r) && NoneDangling(r)
    ensures EvictsByQueue(r)
    decreases |r.order|
  {
    EvictTidy(r);
    if |r.approvals| >= MAX_APPROVALS {
      var next := r.(approvals := r.approvals - {r.order[0]}, order := r.order[1..]);
      EvictedOnce(r);
      TidyEvictsByQueue(next);
    }
  }

  lemma EvictedOnce(r: Registry)
    requires Tidy(r) && NoneDangling(r) && r.order != []
    ensures var next := r.(approvals := r.approvals - {r.order[0]}, order := r.order[1..]); Tidy(next) && NoneDangling(next)
  {
    FewerApprovals(r.approvals - {r.order[0]}, r.approvals);
    assert forall t :: t in r.order <==> t == r.order[0] || t in r.order[1..];
  }

  /** Over every run, whenever an approval is recorded, the fallback that clears all approvals is not reached. */
  lemma FallbackNeverTaken(actions: seq<Action>, now: int)
    ensures EvictsByQueue(Purge(Execute(actions).registry, now))
  {
    ApprovalsAlways(actions);
    PurgeTidy(Execute(actions).registry, now);
    TidyEvictsByQueue(Purge(Execute(actions).registry, now));
  }

  // ---- how long a cancelled run is remembered ----

  /** How many of the runs are new to the queue when they are remembered one after the other. */
  ghost function CountNew(cancelled: seq<Run>, runs: seq<Run>): nat {
    if runs == [] then 0
    else
      var front := runs[..|runs| - 1];
      CountNew(cancelled, front) + if runs[|runs| - 1] in RememberAll(cancelled, front) then 0 else 1
  }

  /** How many runs an action newly records as cancelled. */
  ghost function NewlyRecorded(w: World, a: Action): nat {
    if !Enabled(w, a) then 0
    else match a
      case Cancel(run) => CountNew(w.registry.cancelled, [run])
      case CancelEvery(runs) => CountNew(w.registry.cancelled, runs)
      case _ => 0
  }

  ghost function RecordedBetween(before: seq<Action>, later: seq<Action>): nat {
    if later == [] then 0
    else
      var front := later[..|later| - 1];
      RecordedBetween(before, front) + NewlyRecorded(Execute(before + front), later[|later| - 1])
  }

  /** The run is in the queue, with at most `n` behind it. */
  ghost predicate Recent(queue: seq<Run>, run: Run, n: nat) {
    exists i :: 0 <= i < |queue| && |queue| - 1 - n <= i && queue[i] == run
  }

  lemma RecentNext(queue: seq<Run>, run: Run, n: nat, last: Run)
    requires |queue| <= MAX_CANCELLED_RUNS && Recent(queue, run, n)
    requires n + (if last in queue then 0 else 1) <= 255
    ensures Recent(Remember(queue, last), run, n + if last in queue then 0 else 1)
  {
    var i :| 0 <= i < |queue| && |queue| - 1 - n <= i && queue[i] == run;
    var after := Remember(queue, last);
    if last !in queue {
      assert after[if |queue| == MAX_CANCELLED_RUNS then i - 1 else i] == run;
    }
  }

  lemma {:induction false} RecentAll(queue: seq<Run>, run: Run, n: nat, runs: seq<Run>)
    requires |queue| <= MAX_CANCELLED_RUNS && Recent(queue, run, n) && n + CountNew(queue, runs) <= 255
    ensures Recent(RememberAll(queue, runs), run, n + CountNew(queue, runs))
  {
    hide Recent;
    if runs != [] {
      var front := runs[..|runs| - 1];
      RecentAll(queue, run, n, front);
      RememberAllBound(queue, front);
      RecentNext(RememberAll(queue, front), run, n + CountNew(queue, front), runs[|runs| - 1]);
    }
  }

  lemma RecentStep(w: World, a: Action, run: Run, n: nat)
    requires |w.registry.cancelled| <= MAX_CANCELLED_RUNS && Enabled(w, a)
    requires Recent(w.registry.cancelled, run, n) && n + NewlyRecorded(w, a) <= 255
    ensures Recent(Step(w, a).registry.cancelled, run, n + NewlyRecorded(w, a))
  {
    hide Recent, Remember, CountNew;
    var queue := w.registry.cancelled;
    match a
    case Cancel(other) =>
      RecentAll(queue, run, n, [other]);
      OneRemembered(queue, other);
    case CancelEvery(runs) => RecentAll(queue, run, n, runs);
    case _ => OnlyCancelsRecord(w, a);
  }

  lemma OnlyCancelsRecord(w: World, a: Action)
    requires Enabled(w, a) && !a.Cancel? && !a.CancelEvery?
    ensures Step(w, a).registry.cancelled == w.registry.cancelled && NewlyRecorded(w, a) == 0
  {
    hide Retain, CountNew;
    if a.Mint? { EvictKeepsCancelled(Purge(w.registry, a.now)); }
  }

  lemma {:induction false} EvictKeepsCancelled(r: Registry)
    ensures Evict(r).cancelled == r.cancelled
    decreases |r.order|
  {
    if |r.approvals| >= MAX_APPROVALS && r.order != [] {
      EvictKeepsCancelled(r.(approvals := r.approvals - {r.order[0]}, order := r.order[1..]));
    }
  }

  lemma OneRemembered(queue: seq<Run>, run: Run)
    ensures RememberAll(queue, [run]) == Remember(queue, run)
  {
    assert [run][..0] == [];
    assert RememberAll(queue, [run][..0]) == queue;
  }

  lemma {:induction false} RecentOver(before: seq<Action>, run: Run, n: nat, later: seq<Action>)
    requires Recent(Execute(before).registry.cancelled, run, n) && n + RecordedBetween(before, later) <= 255
    ensures Recent(Execute(before + later).registry.cancelled, run, n + RecordedBetween(before, later))
  {
    hide Recent, Step, NewlyRecorded, Execute, Enabled;
    if later == [] {
      assert before + later == before;
    } else {
      var front, last := later[..|later| - 1], later[|later| - 1];
      RecentOver(before, run, n, front);
      assert before + later == before + front + [last];
      ExecuteNext(before + front, last);
      QueueAlwaysTidy(before + front);
      if Enabled(Execute(before + front), last) {
        RecentStep(Execute(before + front), last, run, n + RecordedBetween(before, front));
      } else {
        NothingRecorded(Execute(before + front), last);
      }
    }
  }

  lemma ExecuteNext(before: seq<Action>, a: Action)
    ensures Execute(before + [a]) == if Enabled(Execute(before), a) then Step(Execute(before), a) else Execute(before)
  {
    assert (before + [a])[..|before|] == before;
  }

  lemma NothingRecorded(w: World, a: Action)
    requires !Enabled(w, a)
    ensures NewlyRecorded(w, a) == 0
  {
  }

  /** Over every run, a newly cancelled run is remembered until more than 255 others have been newly cancelled. */
  lemma CancelSurvives(before: seq<Action>, run: Run, later: seq<Action>)
    requires run !in Execute(before).registry.cancelled && RecordedBetween(before + [Cancel(run)], later) <= 255
    ensures run in Execute(before + [Cancel(run)] + later).registry.cancelled
  {
    hide *;
    var first := before + [Cancel(run)];
    CancelRecent(before, run);
    RecentOver(first, run, 0, later);
    RecentIsIn(Execute(first + later).registry.cancelled, run, RecordedBetween(first, later));
  }

  lemma CancelRecent(before: seq<Action>, run: Run)
    requires run !in Execute(before).registry.cancelled
    ensures Recent(Execute(before + [Cancel(run)]).registry.cancelled, run, 0)
  {
    ExecuteNext(before, Cancel(run));
    hide Execute;
    CancelStep(Execute(before), run);
    LastIsRecent(Execute(before).registry.cancelled, run);
  }

  lemma CancelStep(w: World, run: Run)
    ensures Step(w, Cancel(run)).registry.cancelled == Remember(w.registry.cancelled, run)
  {
  }

  lemma LastIsRecent(queue: seq<Run>, run: Run)
    requires run !in queue
    ensures Recent(Remember(queue, run), run, 0)
  {
    var after := Remember(queue, run);
    assert after[|after| - 1] == run;
  }

  lemma RecentIsIn(queue: seq<Run>, run: Run, n: nat)
    requires Recent(queue, run, n)
    ensures run in queue
  {
  }

  /** At every moment the queue holds each approval once and at most one spent token, and the limits hold. */
  lemma QueueAlwaysTidy(actions: seq<Action>)
    ensures var r := Execute(actions).registry;
      && Distinct(r.order) && (forall t :: t in r.approvals ==> t in r.order) && AtMostOneDangling(r)
      && |r.approvals| <= 256 && |r.cancelled| <= 256
      && (forall run :: run in r.active ==> r.active[run] != map[])
  {
    ApprovalsAlways(actions);
  }

  // ---- the ledger of executions ----

  datatype Tally = Lefts | Signals | Starts | Completions

  ghost function Counted(e: Event, tally: Tally): set<Token> {
    match tally
    case Lefts =>
      (match e
       case Finished(t, left) => if left then {t} else {}
       case Released(t, left, _) => if left then {t} else {}
       case RunCancelled(_, leaving, _) => leaving
       case AllCancelled(leaving, _) => leaving
       case _ => {})
    case Signals =>
      (match e
       case Released(t, _, signalled) => if signalled then {t} else {}
       case RunCancelled(_, _, signalling) => signalling
       case AllCancelled(_, signalling) => signalling
       case _ => {})
    case Starts => if e.Started? then {e.token} else {}
    case Completions => if e.Finished? && e.left then {e.token} else {}
  }

  /** How many events of the log count for `token`. */
  ghost function Count(log: seq<Event>, tally: Tally, token: Token): nat {
    if log == [] then 0
    else Count(log[..|log| - 1], tally, token) + if token in Counted(log[|log| - 1], tally) then 1 else 0
  }

  lemma CountNext(log: seq<Event>, e: Event, tally: Tally, token: Token)
    ensures Count(log + [e], tally, token) == Count(log, tally, token) + if token in Counted(e, tally) then 1 else 0
  {
    assert (log + [e])[..|log|] == log;
  }

  ghost predicate Tallies(log: seq<Event>, token: Token, lefts: nat, signals: nat, starts: nat, completions: nat) {
    && Count(log, Lefts, token) == lefts && Count(log, Signals, token) == signals
    && Count(log, Starts, token) == starts && Count(log, Completions, token) == completions
  }

  lemma TalliesNext(log: seq<Event>, e: Event, token: Token, l: nat, s: nat, a: nat, c: nat)
    requires Tallies(log, token, l, s, a, c)
    ensures Tallies(log + [e], token,
                    l + (if token in Counted(e, Lefts) then 1 else 0), s + (if token in Counted(e, Signals) then 1 else 0),
                    a + (if token in Counted(e, Starts) then 1 else 0), c + (if token in Counted(e, Completions) then 1 else 0))
  {
    CountNext(log, e, Lefts, token);
    CountNext(log, e, Signals, token);
    CountNext(log, e, Starts, token);
    CountNext(log, e, Completions, token);
  }

  /** Left once, and signalled exactly if it was started and did not complete. */
  ghost predicate Gone(log: seq<Event>, t: Token, starts: nat, completions: nat) {
    && starts <= 1 && completions <= 1
    && Tallies(log, t, 1, if starts == 1 && completions == 0 then 1 else 0, starts, completions)
  }

  ghost predicate Untouched(e: Event, t: Token) {
    t !in Counted(e, Lefts) && t !in Counted(e, Signals) && t !in Counted(e, Starts) && t !in Counted(e, Completions)
  }

  /** The accounts of one token: unopened, open, or left exactly once. */
  ghost predicate Balanced(w: World, t: Token) {
    if t !in w.leases then
      Tallies(w.log, t, 0, 0, 0, 0) && t !in w.dropped && forall run :: !IsActive(w.registry, run, t)
    else
      var lease := w.leases[t];
      && (forall run :: IsActive(w.registry, run, t) ==> run == lease.run)
      && (lease.execId.None? || lease.execId == Some(t))
      && if IsActive(w.registry, lease.run, t) then
           && lease == Lease(lease.run, Some(t), w.registry.active[lease.run][t], false) && t !in w.dropped
           && Tallies(w.log, t, 0, 0, if lease.pid.Some? then 1 else 0, 0)
         else
           Gone(w.log, t, Count(w.log, Starts, t), Count(w.log, Completions, t))
  }

  /** An event about other tokens, while nothing changes for this one. */
  lemma BalancedElsewhere(w: World, next: World, e: Event, t: Token)
    requires Balanced(w, t) && next.log == w.log + [e]
    requires Untouched(e, t)
    requires (t in next.leases <==> t in w.leases) && (t in w.leases ==> next.leases[t] == w.leases[t])
    requires t in next.dropped ==> t in w.dropped
    requires forall run :: IsActive(next.registry, run, t) <==> IsActive(w.registry, run, t)
    requires forall run :: IsActive(next.registry, run, t) && IsActive(w.registry, run, t) ==>
               next.registry.active[run][t] == w.registry.active[run][t]
    ensures Balanced(next, t)
  {
    var l, s, a, c := Count(w.log, Lefts, t), Count(w.log, Signals, t), Count(w.log, Starts, t), Count(w.log, Completions, t);
    TalliesNext(w.log, e, t, l, s, a, c);
    hide Count;
    assert Tallies(next.log, t, l, s, a, c);
  }

  /** An open execution that leaves, with a signal when it was started and has not completed. */
  lemma BalancedLeaves(w: World, next: World, e: Event, t: Token)
    requires Balanced(w, t) && t in w.leases && IsActive(w.registry, w.leases[t].run, t) && next.log == w.log + [e]
    requires t in Counted(e, Lefts) && t !in Counted(e, Starts)
    requires t in Counted(e, Signals) <==> w.leases[t].pid.Some? && t !in Counted(e, Completions)
    requires t in next.leases && (next.leases[t].execId.None? || next.leases[t].execId == Some(t))
    requires forall run :: !IsActive(next.registry, run, t)
    ensures Balanced(next, t)
  {
    TalliesNext(w.log, e, t, 0, 0, if w.leases[t].pid.Some? then 1 else 0, 0);
  }

  /** Nothing more happens to an execution that has left. */
  lemma BalancedStaysOut(w: World, next: World, e: Event, t: Token)
    requires Balanced(w, t) && t in w.leases && !IsActive(w.registry, w.leases[t].run, t) && next.log == w.log + [e]
    requires Untouched(e, t)
    requires t in next.leases && (next.leases[t].execId.None? || next.leases[t].execId == Some(t))
    requires forall run :: !IsActive(next.registry, run, t)
    ensures Balanced(next, t)
  {
    hide Count;
    var starts, completions := Count(w.log, Starts, t), Count(w.log, Completions, t);
    TalliesNext(w.log, e, t, 1, if starts == 1 && completions == 0 then 1 else 0, starts, completions);
  }

  lemma BalancedStep(w: World, a: Action, t: Token)
    requires Approvals(w) && Enabled(w, a)
    requires forall other :: Balanced(w, other)
    ensures Balanced(Step(w, a), t)
  {
    hide Approvals, Balanced, Step;
    match a
    case Mint(project, command, run, now, token) => BalancedMint(w, project, command, run, now, token, t);
    case Begin(project, command, run, now, token) => BalancedBegin(w, project, command, run, now, token, t);
    case Start(token, pid) => BalancedStart(w, token, pid, t);
    case Complete(token) => BalancedComplete(w, token, t);
    case Drop(token) => BalancedDrop(w, token, t);
    case Cancel(run) => BalancedCancel(w, run, t);
    case CancelEvery(runs) => BalancedCancelAll(w, runs, t);
  }

  lemma BalancedMint(w: World, project: string, command: string, run: Run, now: int, token: Token, t: Token)
    requires Approvals(w) && Balanced(w, t) && !WasMinted(w.log, token)
    ensures Balanced(Step(w, Mint(project, command, run, now, token)), t)
  {
    hide Authorized, Balanced, Tidy, Count, Backed, Justified;
    AuthorizedTidy(w.registry, project, command, run, now, token);
    var next := Step(w, Mint(project, command, run, now, token));
    if next.log != w.log {
      BalancedElsewhere(w, next, Minted(token, project, command, run, now), t);
    }
  }

  lemma BalancedBegin(w: World, project: string, command: string, run: Run, now: int, token: Token, t: Token)
    requires Approvals(w) && Balanced(w, t)
    ensures Balanced(Step(w, Begin(project, command, run, now, token)), t)
  {
    hide Begun, Approvals, Opened, Count, Tidy;
    ApprovalsFacts(w);
    BegunTidy(w.registry, project, command, run, token, now);
    var lease := Begun(w.registry, project, command, run, token, now).1;
    var next := Step(w, Begin(project, command, run, now, token));
    if lease.Some? { OpenedLookups(w.registry, next.registry, run, token); }
    if lease.None? {
      BalancedElsewhere(w, next, Burned(token), t);
    } else if t != token {
      BalancedElsewhere(w, next, Began(token, project, command, run, now), t);
    } else {
      TalliesNext(w.log, Began(token, project, command, run, now), t, 0, 0, 0, 0);
    }
  }

  lemma OpenedLookups(r: Registry, s: Registry, run: Run, token: Token)
    requires s.active == Opened(r.active, run, token)
    ensures forall other, t :: IsActive(s, other, t) <==> IsActive(r, other, t) || (other == run && t == token)
    ensures IsActive(s, run, token) && s.active[run][token] == None
    ensures forall other, t :: IsActive(r, other, t) && IsActive(s, other, t) && !(other == run && t == token) ==>
              s.active[other][t] == r.active[other][t]
  {
  }

  lemma ApprovalsFacts(w: World)
    requires Approvals(w)
    ensures Tidy(w.registry) && forall t :: t in w.registry.approvals ==> t !in w.leases
  {
  }

  lemma BalancedStart(w: World, token: Token, pid: nat, t: Token)
    requires Approvals(w) && Balanced(w, t) && Balanced(w, token) && Enabled(w, Start(token, pid))
    ensures Balanced(Step(w, Start(token, pid)), t)
  {
    hide Activated, Approvals, Count;
    ApprovalsFacts(w);
    StartedTidy(w.registry, w.leases[token], pid);
    var next := Step(w, Start(token, pid));
    if next.log != w.log {
      var e := Started(token, w.leases[token].run);
      if t != token {
        BalancedElsewhere(w, next, e, t);
      } else {
        TalliesNext(w.log, e, t, 0, 0, 0, 0);
      }
    }
  }

  lemma BalancedComplete(w: World, token: Token, t: Token)
    requires Approvals(w) && Balanced(w, t) && Balanced(w, token) && Enabled(w, Complete(token))
    ensures Balanced(Step(w, Complete(token)), t)
  {
    hide Unregistered, Approvals, Count, Tidy;
    ApprovalsFacts(w);
    UnregisteredTidy(w.registry, w.leases[token]);
    var next := Step(w, Complete(token));
    var e := next.log[|w.log|];
    if t != token {
      BalancedElsewhere(w, next, e, t);
    } else if e.left {
      BalancedLeaves(w, next, e, t);
    } else {
      BalancedStaysOut(w, next, e, t);
    }
  }

  lemma BalancedDrop(w: World, token: Token, t: Token)
    requires Approvals(w) && Balanced(w, t) && Balanced(w, token) && Enabled(w, Drop(token))
    ensures Balanced(Step(w, Drop(token)), t)
  {
    hide Unregistered, Approvals, Count, Tidy;
    ApprovalsFacts(w);
    UnregisteredTidy(w.registry, w.leases[token]);
    var next := Step(w, Drop(token));
    var e := next.log[|w.log|];
    if t != token {
      BalancedElsewhere(w, next, e, t);
    } else if e.left {
      BalancedLeaves(w, next, e, t);
    } else {
      BalancedStaysOut(w, next, e, t);
    }
  }

  lemma BalancedCancel(w: World, run: Run, t: Token)
    requires Approvals(w) && Balanced(w, t)
    ensures Balanced(Step(w, Cancel(run)), t)
  {
    hide CancelledRun, Approvals, Count, Tidy, Table;
    ApprovalsFacts(w);
    CancelledRunTidy(w.registry, run);
    CancelProcesses(w.registry, run);
    var next := Step(w, Cancel(run));
    var e := RunCancelled(run, Table(w.registry, run).Keys, CancelledRun(w.registry, run).1.Keys);
    if IsActive(w.registry, run, t) {
      assert t in w.leases && w.leases[t].run == run;
      forall other ensures !IsActive(next.registry, other, t) {
        assert IsActive(w.registry, other, t) ==> other == run;
      }
      BalancedLeaves(w, next, e, t);
    } else {
      BalancedElsewhere(w, next, e, t);
    }
  }

  lemma CancelProcesses(r: Registry, run: Run)
    ensures forall t :: t in Table(r, run).Keys <==> IsActive(r, run, t)
    ensures forall t :: t in CancelledRun(r, run).1.Keys <==> IsActive(r, run, t) && r.active[run][t].Some?
  {
  }

  lemma OpeningsIff(r: Registry, t: Token)
    ensures t in Openings(r) <==> exists run :: IsActive(r, run, t)
    ensures t in Running(r) <==> exists run :: IsActive(r, run, t) && r.active[run][t].Some?
  {
    forall run | IsActive(r, run, t) ensures t in Openings(r) && (r.active[run][t].Some? ==> t in Running(r)) {
      assert run in r.active && t in r.active[run];
    }
    if t in Running(r) {
      var run :| run in r.active && t in r.active[run] && r.active[run][t].Some?;
      assert IsActive(r, run, t);
    }
    if t in Openings(r) {
      var run :| run in r.active && t in r.active[run];
      assert IsActive(r, run, t);
    }
  }

  lemma BalancedCancelAll(w: World, runs: seq<Run>, t: Token)
    requires Approvals(w) && Balanced(w, t) && Enabled(w, CancelEvery(runs))
    ensures Balanced(Step(w, CancelEvery(runs)), t)
  {
    hide Approvals, Count, RememberAll, Openings, Running;
    var next := Step(w, CancelEvery(runs));
    var e := AllCancelled(Openings(w.registry), Running(w.registry));
    OpeningsIff(w.registry, t);
    if t in w.leases && IsActive(w.registry, w.leases[t].run, t) {
      BalancedLeaves(w, next, e, t);
    } else {
      BalancedElsewhere(w, next, e, t);
    }
  }

  lemma {:induction false} BalancedAlways(actions: seq<Action>, t: Token)
    ensures Balanced(Execute(actions), t)
  {
    hide Approvals, Step;
    if actions != [] {
      hide Balanced;
      var front := actions[..|actions| - 1];
      forall other { BalancedAlways(front, other); }
      ApprovalsAlways(front);
      if Enabled(Execute(front), actions[|actions| - 1]) {
        BalancedStep(Execute(front), actions[|actions| - 1], t);
      }
    }
  }

  /**
   * Every opened execution leaves the table exactly once, dropped ones certainly; its process is signalled
   * exactly once if it was activated and left otherwise than by completing, and never in any other case.
   */
  lemma LeavesOnceSignalsOnce(actions: seq<Action>, t: Token)
    ensures var w := Execute(actions);
      && Count(w.log, Lefts, t) == (if t in w.leases && !IsActive(w.registry, w.leases[t].run, t) then 1 else 0)
      && (t in w.dropped ==> Count(w.log, Lefts, t) == 1)
      && Count(w.log, Starts, t) <= 1
      && Count(w.log, Signals, t)
         == (if Count(w.log, Starts, t) == 1 && Count(w.log, Lefts, t) == 1 && Count(w.log, Completions, t) == 0 then 1 else 0)
  {
    hide Count;
    BalancedAlways(actions, t);
    DroppedWereLeased(actions, t);
  }

  lemma {:induction false} DroppedWereLeased(actions: seq<Action>, t: Token)
    ensures t in Execute(actions).dropped ==> t in Execute(actions).leases
  {
    if actions != [] {
      DroppedWereLeased(actions[..|actions| - 1], t);
    }
  }

  // ---- no start after a cancel ----

  ghost predicate Cancels(e: Event, run: Run) {
    (e.RunCancelled? && e.run == run) || e.AllCancelled?
  }

  /** The event at `k` opened the execution and its run has not been cancelled before `to`. */
  ghost predicate Opens(log: seq<Event>, k: int, to: int, token: Token, run: Run)
    requires to <= |log|
  {
    && 0 <= k < to && log[k].Began? && log[k].token == token && log[k].run == run
    && forall m :: k < m < to ==> !Cancels(log[m], run)
  }

  ghost predicate OpenSince(log: seq<Event>, to: nat, token: Token, run: Run)
    requires to <= |log|
  {
    exists k :: Opens(log, k, to, token, run)
  }

  ghost predicate TimelyStarts(w: World) {
    && (forall run, t :: IsActive(w.registry, run, t) ==> OpenSince(w.log, |w.log|, t, run))
    && (forall j :: 0 <= j < |w.log| && w.log[j].Started? ==> OpenSince(w.log, j, w.log[j].token, w.log[j].run))
  }

  lemma OpenLater(log: seq<Event>, e: Event, to: nat, token: Token, run: Run)
    requires to <= |log| && OpenSince(log, to, token, run)
    ensures OpenSince(log + [e], to, token, run)
    ensures to == |log| && !Cancels(e, run) ==> OpenSince(log + [e], to + 1, token, run)
  {
    var k :| Opens(log, k, to, token, run);
    assert Opens(log + [e], k, to, token, run);
    if to == |log| && !Cancels(e, run) { assert Opens(log + [e], k, to + 1, token, run); }
  }

  lemma TimelyKept(w: World, next: World, e: Event)
    requires TimelyStarts(w) && next.log == w.log + [e]
    requires forall run, t :: IsActive(next.registry, run, t) ==>
               (IsActive(w.registry, run, t) && !Cancels(e, run)) || (e.Began? && e.token == t && e.run == run)
    requires e.Started? ==> IsActive(w.registry, e.run, e.token)
    ensures TimelyStarts(next)
  {
    hide OpenSince, Cancels;
    forall run, t | IsActive(next.registry, run, t) ensures OpenSince(next.log, |next.log|, t, run) {
      if IsActive(w.registry, run, t) && !Cancels(e, run) { OpenLater(w.log, e, |w.log|, t, run); }
      else { BeganOpens(w.log, e); }
    }
    forall j | 0 <= j < |next.log| && next.log[j].Started? ensures OpenSince(next.log, j, next.log[j].token, next.log[j].run) {
      OpenLater(w.log, e, j, next.log[j].token, next.log[j].run);
    }
  }

  lemma BeganOpens(log: seq<Event>, e: Event)
    requires e.Began?
    ensures OpenSince(log + [e], |log| + 1, e.token, e.run)
  {
    assert Opens(log + [e], |log|, |log| + 1, e.token, e.run);
  }

  lemma TimelyStep(w: World, a: Action)
    requires Approvals(w) && (forall t :: Balanced(w, t)) && TimelyStarts(w) && Enabled(w, a)
    ensures TimelyStarts(Step(w, a))
  {
    hide Approvals, TimelyStarts, Authorized, Begun, Activated, Unregistered, CancelledRun, RememberAll, Tidy, Openings, Running, Table, Opened;
    ApprovalsFacts(w);
    var next := Step(w, a);
    match a
    case Mint(project, command, run, now, token) =>
      TimelyMint(w, project, command, run, now, token);
    case Begin(project, command, run, now, token) =>
      BegunTidy(w.registry, project, command, run, token, now);
      var lease := Begun(w.registry, project, command, run, token, now).1;
      if lease.Some? { OpenedLookups(w.registry, next.registry, run, token); }
      TimelyKept(w, next, if lease.Some? then Began(token, project, command, run, now) else Burned(token));
    case Start(token, pid) => TimelyStart(w, token, pid);
    case Complete(token) =>
      UnregisteredTidy(w.registry, w.leases[token]);
      TimelyKept(w, next, next.log[|w.log|]);
    case Drop(token) =>
      UnregisteredTidy(w.registry, w.leases[token]);
      TimelyKept(w, next, next.log[|w.log|]);
    case Cancel(run) =>
      CancelledRunTidy(w.registry, run);
      TimelyKept(w, next, next.log[|w.log|]);
    case CancelEvery(runs) =>
      TimelyKept(w, next, next.log[|w.log|]);
  }

  lemma TimelyMint(w: World, project: string, command: string, run: Run, now: int, token: Token)
    requires Approvals(w) && TimelyStarts(w) && !WasMinted(w.log, token)
    ensures TimelyStarts(Step(w, Mint(project, command, run, now, token)))
  {
    hide Authorized, Backed, Justified, Tidy;
    AuthorizedTidy(w.registry, project, command, run, now, token);
    var next := Step(w, Mint(project, command, run, now, token));
    hide TimelyStarts;
    if next.log != w.log {
      TimelyKept(w, next, Minted(token, project, command, run, now));
    }
  }

  lemma TimelyStart(w: World, token: Token, pid: nat)
    requires Approvals(w) && Balanced(w, token) && TimelyStarts(w) && Enabled(w, Start(token, pid))
    ensures TimelyStarts(Step(w, Start(token, pid)))
  {
    hide Approvals, Activated, Tidy, Count;
    ApprovalsFacts(w);
    StartedTidy(w.registry, w.leases[token], pid);
    var next := Step(w, Start(token, pid));
    hide TimelyStarts;
    if next.log != w.log {
      TimelyKept(w, next, Started(token, w.leases[token].run));
    }
  }

  lemma {:induction false} TimelyAlways(actions: seq<Action>)
    ensures TimelyStarts(Execute(actions))
  {
    if actions != [] {
      hide Approvals, Balanced, Step, TimelyStarts;
      var front := actions[..|actions| - 1];
      TimelyAlways(front);
      ApprovalsAlways(front);
      forall t { BalancedAlways(front, t); }
      if Enabled(Execute(front), actions[|actions| - 1]) {
        TimelyStep(Execute(front), actions[|actions| - 1]);
      }
    }
  }

  /**
   * After a cancel, no execution of that run opened earlier is ever activated, however many other runs
   * have been cancelled since and whether or not the run is still remembered.
   */
  lemma NoStartAfterCancel(actions: seq<Action>, b: nat, i: nat, j: nat)
    requires b < i < j < |Execute(actions).log|
    requires var log := Execute(actions).log; log[b].Began? && Cancels(log[i], log[b].run)
    ensures var log := Execute(actions).log; !(log[j].Started? && log[j].token == log[b].token)
  {
    var log := Execute(actions).log;
    TimelyAlways(actions);
    if log[j].Started? && log[j].token == log[b].token {
      assert OpenSince(log, j, log[j].token, log[j].run);
      var k :| Opens(log, k, j, log[j].token, log[j].run);
      BeganOnce(actions, b, k);
    }
  }

  lemma BeganOnce(actions: seq<Action>, b: nat, k: nat)
    requires b < |Execute(actions).log| && k < |Execute(actions).log|
    requires var log := Execute(actions).log; log[b].Began? && log[k].Began? && log[b].token == log[k].token
    ensures b == k
  {
    var m := BeginHasOneMint(actions, b);
    var n := BeginHasOneMint(actions, k);
    if b < k { UsedTokenIsSpent(actions, m, b, k); }
    if k < b { UsedTokenIsSpent(actions, n, k, b); }
  }
}
