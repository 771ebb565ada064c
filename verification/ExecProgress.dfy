/** What the approval registry does not forget: an approval lasts until it is used, cancelled, expired or pushed out. */
module ExecProgress {
  import opened Wrappers
  import opened ExecApprovals
  import opened ExecTrace

  // ---- what one mint forgets ----

  lemma {:induction false} KeysWithin(keys: set<Token>, order: seq<Token>)
    requires forall t :: t in keys ==> t in order
    ensures |keys| <= |order|
  {
    if order == [] {
      assert keys == {};
    } else {
      var last := order[|order| - 1];
      KeysWithin(keys - {last}, order[..|order| - 1]);
    }
  }

  /** With at most 256 approvals, all of them queued, eviction takes the front of the queue when there are 256, else nothing. */
  lemma EvictsFront(r: Registry)
    requires Tidy(r) && NoneDangling(r)
    ensures |r.approvals| < 256 ==> Evict(r) == r
    ensures |r.approvals| >= 256 ==>
              |r.order| >= 256 && Evict(r) == r.(approvals := r.approvals - {r.order[0]}, order := r.order[1..])
  {
    KeysWithin(r.approvals.Keys, r.order);
    assert |r.approvals.Keys| == |r.approvals|;
    if |r.approvals| >= 256 {
      var next := r.(approvals := r.approvals - {r.order[0]}, order := r.order[1..]);
      EvictedOnce(r);
      FewerApprovals(next.approvals, r.approvals);
      assert next.approvals.Keys == r.approvals.Keys - {r.order[0]};
      assert |next.approvals.Keys| == |next.approvals|;
    }
  }

  /** Over every run, eviction takes nothing from fewer than 256 approvals and one from 256, so it never clears them all. */
  lemma EvictsAtMostOne(actions: seq<Action>, now: int)
    ensures var purged := Purge(Execute(actions).registry, now);
      |Evict(purged).approvals| == if |purged.approvals| < 256 then |purged.approvals| else 255
  {
    hide Execute, Evict, Purge;
    var purged := Purge(Execute(actions).registry, now);
    ApprovalsAlways(actions);
    PurgeTidy(Execute(actions).registry, now);
    EvictsFront(purged);
    if |purged.approvals| >= 256 {
      var first := purged.order[0];
      assert first in purged.approvals;
      assert (purged.approvals - {first}).Keys == purged.approvals.Keys - {first};
      assert |purged.approvals.Keys| == |purged.approvals| && |(purged.approvals - {first}).Keys| == |purged.approvals - {first}|;
    }
  }

  lemma {:induction false} RetainRecent(order: seq<Token>, keys: set<Token>, token: Token, n: nat)
    requires token in keys && Recent(order, token, n)
    ensures Recent(Retain(order, keys), token, n)
  {
    var i :| 0 <= i < |order| && |order| - 1 - n <= i && order[i] == token;
    var front, last := order[..|order| - 1], order[|order| - 1];
    var kept := Retain(order, keys);
    if i == |order| - 1 {
      assert kept[|kept| - 1] == token;
    } else {
      assert front[i] == token;
      RetainRecent(front, keys, token, n - 1);
      var rest := Retain(front, keys);
      var j :| 0 <= j < |rest| && |rest| - 1 - (n - 1) <= j && rest[j] == token;
      assert kept[j] == token;
    }
  }

  // ---- an approval that nothing has ended ----

  /** The approval is there, at most `n` tokens are queued behind it, and its run is not remembered as cancelled. */
  ghost predicate Alive(r: Registry, token: Token, a: Approval, n: nat) {
    token in r.approvals && r.approvals[token] == a && Recent(r.order, token, n) && a.run !in r.cancelled
  }

  /** An action that neither uses the token nor cancels its run, at a time before the approval expires. */
  ghost predicate Spares(action: Action, token: Token, a: Approval) {
    match action
    case Mint(_, _, _, now, _) => now < a.expiresAt
    case Begin(_, _, _, now, used) => now < a.expiresAt && used != token
    case Cancel(run) => run != a.run
    case CancelEvery(_) => false
    case _ => true
  }

  ghost function Mints(actions: seq<Action>): nat {
    if actions == [] then 0
    else Mints(actions[..|actions| - 1]) + if actions[|actions| - 1].Mint? then 1 else 0
  }

  lemma PurgeAlive(r: Registry, now: int, token: Token, a: Approval, n: nat)
    requires Alive(r, token, a, n) && now < a.expiresAt
    ensures Alive(Purge(r, now), token, a, n)
  {
    var left := map t | t in r.approvals && r.approvals[t].expiresAt > now :: r.approvals[t];
    RetainRecent(r.order, left.Keys, token, n);
  }

  lemma MintAlive(r: Registry, project: string, command: string, run: Run, now: int, minted: Token, token: Token, a: Approval, n: nat)
    requires Tidy(r) && minted !in r.order && Alive(r, token, a, n) && now < a.expiresAt && n <= 254
    ensures Alive(Authorized(r, project, command, run, now, minted).0, token, a, n + 1)
  {
    hide Purge, Evict, Tidy, NoneDangling;
    assert token in r.order;
    if run !in r.cancelled {
      PurgeTidy(r, now);
      PurgeAlive(r, now, token, a, n);
      EvictsFront(Purge(r, now));
      AddAlive(Purge(r, now), Approval(project, command, run, now + APPROVAL_TTL), minted, token, a, n);
    }
  }

  lemma AddAlive(r: Registry, added: Approval, minted: Token, token: Token, a: Approval, n: nat)
    requires Tidy(r) && Alive(r, token, a, n) && minted != token && n <= 254
    requires |r.approvals| < 256 ==> Evict(r) == r
    requires |r.approvals| >= 256 ==>
               |r.order| >= 256 && Evict(r) == r.(approvals := r.approvals - {r.order[0]}, order := r.order[1..])
    ensures var room := Evict(r);
      Alive(room.(order := room.order + [minted], approvals := room.approvals[minted := added]), token, a, n + 1)
  {
    hide Evict, Recent;
    if |r.approvals| < 256 {
      OneMoreBehind(r.order, token, n, minted);
    } else {
      FrontGoes(r.order, token, n);
      OneMoreBehind(r.order[1..], token, n, minted);
    }
  }

  lemma OneMoreBehind(order: seq<Token>, token: Token, n: nat, minted: Token)
    requires Recent(order, token, n)
    ensures Recent(order + [minted], token, n + 1)
  {
    var i :| 0 <= i < |order| && |order| - 1 - n <= i && order[i] == token;
    assert (order + [minted])[i] == token;
  }

  lemma FrontGoes(order: seq<Token>, token: Token, n: nat)
    requires Recent(order, token, n) && Distinct(order) && n + 2 <= |order|
    ensures order[0] != token && Recent(order[1..], token, n)
  {
    var i :| 0 <= i < |order| && |order| - 1 - n <= i && order[i] == token;
    assert order[1..][i - 1] == token;
  }

  lemma BeginAlive(r: Registry, project: string, command: string, run: Run, used: Token, now: int, token: Token, a: Approval, n: nat)
    requires Alive(r, token, a, n) && now < a.expiresAt && used != token
    ensures Alive(Begun(r, project, command, run, used, now).0, token, a, n)
  {
    PurgeAlive(r, now, token, a, n);
    BegunCases(r, project, command, run, used, now);
    hide Begun, Purge, Opened, Recent;
  }

  lemma CancelAlive(r: Registry, run: Run, token: Token, a: Approval, n: nat)
    requires Alive(r, token, a, n) && run != a.run
    ensures Alive(CancelledRun(r, run).0, token, a, n)
  {
    var left := map t | t in r.approvals && r.approvals[t].run != run :: r.approvals[t];
    RetainRecent(r.order, left.Keys, token, n);
  }

  lemma AliveStep(w: World, action: Action, token: Token, a: Approval, n: nat)
    requires Approvals(w) && Enabled(w, action)
    requires Alive(w.registry, token, a, n) && Spares(action, token, a) && (action.Mint? ==> n <= 254)
    ensures Alive(Step(w, action).registry, token, a, if action.Mint? then n + 1 else n)
  {
    hide Alive, Authorized, Begun, CancelledRun, Tidy, Backed, Justified, Activated, Unregistered;
    var r := w.registry;
    match action
    case Mint(project, command, run, now, minted) => MintAlive(r, project, command, run, now, minted, token, a, n);
    case Begin(project, command, run, now, used) => BeginAlive(r, project, command, run, used, now, token, a, n);
    case Cancel(run) => CancelAlive(r, run, token, a, n);
    case _ => LeaseAlive(w, action, token, a, n);
  }

  lemma LeaseAlive(w: World, action: Action, token: Token, a: Approval, n: nat)
    requires Enabled(w, action) && (action.Start? || action.Complete? || action.Drop?)
    requires Alive(w.registry, token, a, n)
    ensures Alive(Step(w, action).registry, token, a, n)
  {
    hide Recent;
  }

  lemma {:induction false} AliveOver(before: seq<Action>, later: seq<Action>, token: Token, a: Approval)
    requires Alive(Execute(before).registry, token, a, 0)
    requires (forall i :: 0 <= i < |later| ==> Spares(later[i], token, a)) && Mints(later) <= 255
    ensures Alive(Execute(before + later).registry, token, a, Mints(later))
  {
    hide Alive, Step, Execute, Enabled, Spares, Approvals;
    if later == [] {
      assert before + later == before;
    } else {
      var front, last := later[..|later| - 1], later[|later| - 1];
      AliveOver(before, front, token, a);
      assert before + later == before + front + [last];
      ExecuteNext(before + front, last);
      ApprovalsAlways(before + front);
      if Enabled(Execute(before + front), last) {
        AliveStep(Execute(before + front), last, token, a, Mints(front));
      } else {
        MoreBehind(Execute(before + front).registry, token, a, Mints(front), Mints(later));
      }
    }
  }

  lemma MoreBehind(r: Registry, token: Token, a: Approval, n: nat, m: nat)
    requires Alive(r, token, a, n) && n <= m
    ensures Alive(r, token, a, m)
  {
  }

  lemma MintedAlive(w: World, project: string, command: string, run: Run, now: int, token: Token)
    requires Approvals(w) && Enabled(w, Mint(project, command, run, now, token)) && run !in w.registry.cancelled
    ensures var next := Step(w, Mint(project, command, run, now, token));
      && next.log == w.log + [Minted(token, project, command, run, now)]
      && Alive(next.registry, token, Approval(project, command, run, now + 30), 0)
  {
    hide Backed, Justified;
    AuthorizedTidy(w.registry, project, command, run, now, token);
    hide Tidy, Evict, Purge;
    var order := Step(w, Mint(project, command, run, now, token)).registry.order;
    assert order[|order| - 1] == token;
  }

  /**
   * Over every run, a mint for a run not remembered as cancelled is granted, and the approval can then be used with its own
   * project, command and run for 30 seconds, whatever else happens, unless its token is used, its run or every run is
   * cancelled, or more than 255 further approvals are asked for.
   */
  lemma ApprovalSurvives(before: seq<Action>, project: string, command: string, run: Run, now: int, token: Token,
                         later: seq<Action>, at: int)
    requires Enabled(Execute(before), Mint(project, command, run, now, token)) && run !in Execute(before).registry.cancelled
    requires forall i :: 0 <= i < |later| ==> Spares(later[i], token, Approval(project, command, run, now + 30))
    requires Mints(later) <= 255 && at < now + 30
    ensures var mint := Mint(project, command, run, now, token);
      var w := Execute(before + [mint] + later);
      && Execute(before + [mint]).log == Execute(before).log + [Minted(token, project, command, run, now)]
      && Step(w, Begin(project, command, run, at, token)).log == w.log + [Began(token, project, command, run, at)]
  {
    hide Alive, Execute, Approvals;
    var mint, a := Mint(project, command, run, now, token), Approval(project, command, run, now + 30);
    ApprovalsAlways(before);
    ExecuteNext(before, mint);
    MintedAlive(Execute(before), project, command, run, now, token);
    AliveOver(before + [mint], later, token, a);
    AliveBegins(Execute(before + [mint] + later), a, at, token, Mints(later));
  }

  lemma AliveBegins(w: World, a: Approval, at: int, token: Token, n: nat)
    requires Alive(w.registry, token, a, n) && at < a.expiresAt
    ensures Step(w, Begin(a.project, a.command, a.run, at, token)).log == w.log + [Began(token, a.project, a.command, a.run, at)]
  {
    PurgeAlive(w.registry, at, token, a, n);
    BegunCases(w.registry, a.project, a.command, a.run, token, at);
    hide Begun, Purge, Recent;
  }

  // ---- a mint pushes out the oldest approval, and no other ----

  ghost predicate MintsAt(log: seq<Event>, i: int, token: Token) {
    0 <= i < |log| && log[i].Minted? && log[i].token == token
  }

  ghost predicate MintedBefore(log: seq<Event>, t: Token, u: Token) {
    exists i, j :: i < j && MintsAt(log, i, t) && MintsAt(log, j, u)
  }

  lemma MintedBeforeLater(log: seq<Event>, e: Event, t: Token, u: Token)
    requires MintedBefore(log, t, u)
    ensures MintedBefore(log + [e], t, u)
  {
    var i, j :| i < j && MintsAt(log, i, t) && MintsAt(log, j, u);
    assert MintsAt(log + [e], i, t) && MintsAt(log + [e], j, u);
  }

  lemma NewestIsLast(log: seq<Event>, e: Event, t: Token)
    requires WasMinted(log, t) && e.Minted?
    ensures MintedBefore(log + [e], t, e.token)
  {
    var i :| 0 <= i < |log| && log[i].Minted? && log[i].token == t;
    assert MintsAt(log + [e], i, t) && MintsAt(log + [e], |log|, e.token);
  }

  /** The tokens stand in the order of their mints. */
  ghost predicate Ordered(order: seq<Token>, log: seq<Event>) {
    forall i, j :: 0 <= i < j < |order| ==> MintedBefore(log, order[i], order[j])
  }

  lemma {:induction false} RetainOrdered(order: seq<Token>, keys: set<Token>, log: seq<Event>)
    requires Ordered(order, log)
    ensures Ordered(Retain(order, keys), log)
  {
    hide MintedBefore;
    if order != [] {
      var front, last := order[..|order| - 1], order[|order| - 1];
      RetainOrdered(front, keys, log);
      var rest := Retain(front, keys);
      forall i | 0 <= i < |rest| ensures MintedBefore(log, rest[i], last) {
        assert rest[i] in front;
        var k :| 0 <= k < |front| && front[k] == rest[i];
        assert MintedBefore(log, order[k], order[|order| - 1]);
      }
    }
  }

  lemma OrderedLater(order: seq<Token>, log: seq<Event>, e: Event)
    requires Ordered(order, log)
    ensures Ordered(order, log + [e])
  {
    hide MintedBefore;
    forall i, j | 0 <= i < j < |order| ensures MintedBefore(log + [e], order[i], order[j]) {
      MintedBeforeLater(log, e, order[i], order[j]);
    }
  }

  lemma MintOrdered(w: World, project: string, command: string, run: Run, now: int, token: Token)
    requires Approvals(w) && Ordered(w.registry.order, w.log) && Enabled(w, Mint(project, command, run, now, token))
    ensures var next := Step(w, Mint(project, command, run, now, token)); Ordered(next.registry.order, next.log)
  {
    hide MintedBefore, Backed, Justified, Tidy, NoneDangling, Evict, Purge, Ordered;
    var r, e := w.registry, Minted(token, project, command, run, now);
    if run !in r.cancelled {
      PurgeTidy(r, now);
      PurgeOrdered(r, now, w.log);
      EvictsFront(Purge(r, now));
      FrontOrdered(Purge(r, now), w.log);
      var room := Evict(Purge(r, now));
      OrderedLater(room.order, w.log, e);
      forall t | t in room.order ensures MintedBefore(w.log + [e], t, token) {
        assert t in Purge(r, now).order && t in r.order;
        NewestIsLast(w.log, e, t);
      }
      AppendOrdered(room.order, token, w.log + [e]);
    }
  }

  lemma PurgeOrdered(r: Registry, now: int, log: seq<Event>)
    requires Ordered(r.order, log)
    ensures Ordered(Purge(r, now).order, log)
  {
    hide Ordered;
    RetainOrdered(r.order, (map t | t in r.approvals && r.approvals[t].expiresAt > now :: r.approvals[t]).Keys, log);
  }

  lemma FrontOrdered(r: Registry, log: seq<Event>)
    requires Ordered(r.order, log)
    ensures r.order != [] ==> Ordered(r.order[1..], log)
  {
    hide MintedBefore;
  }

  lemma AppendOrdered(order: seq<Token>, token: Token, log: seq<Event>)
    requires Ordered(order, log) && forall t :: t in order ==> MintedBefore(log, t, token)
    ensures Ordered(order + [token], log)
  {
    hide MintedBefore;
  }

  lemma OtherOrdered(w: World, a: Action)
    requires Ordered(w.registry.order, w.log) && Enabled(w, a) && !a.Mint?
    ensures Ordered(Step(w, a).registry.order, Step(w, a).log)
  {
    hide MintedBefore, Ordered, Openings, Running;
    var r, next := w.registry, Step(w, a);
    match a
    case Begin(project, command, run, now, token) =>
      PurgeOrdered(r, now, w.log);
      OrderedLater(Purge(r, now).order, w.log, next.log[|w.log|]);
    case Cancel(run) =>
      RetainOrdered(r.order, (map t | t in r.approvals && r.approvals[t].run != run :: r.approvals[t]).Keys, w.log);
      OrderedLater(next.registry.order, w.log, next.log[|w.log|]);
    case CancelEvery(_) => NothingOrdered(next.log);
    case Start(_, _) => if next.log != w.log { OrderedLater(r.order, w.log, next.log[|w.log|]); }
    case Complete(_) | Drop(_) => OrderedLater(r.order, w.log, next.log[|w.log|]);
  }

  lemma NothingOrdered(log: seq<Event>)
    ensures Ordered([], log)
  {
  }

  lemma {:induction false} OrderedAlways(actions: seq<Action>)
    ensures Ordered(Execute(actions).registry.order, Execute(actions).log)
  {
    hide MintedBefore, Ordered, Step, Enabled, Approvals;
    if actions == [] {
      NothingOrdered([]);
    } else {
      var front, a := actions[..|actions| - 1], actions[|actions| - 1];
      OrderedAlways(front);
      ApprovalsAlways(front);
      var w := Execute(front);
      if Enabled(w, a) {
        match a
        case Mint(project, command, run, now, token) => MintOrdered(w, project, command, run, now, token);
        case _ => OtherOrdered(w, a);
      }
    }
  }

  /** The approvals that have not expired. */
  ghost function Live(r: Registry, now: int): set<Token> { set t | t in r.approvals && r.approvals[t].expiresAt > now }

  ghost predicate Oldest(w: World, live: set<Token>, t: Token) {
    t in live && forall u :: u in live && u != t ==> MintedBefore(w.log, t, u)
  }

  /**
   * Over every run, a mint is refused exactly for a run that is remembered as cancelled, and then changes nothing. A granted
   * one forgets the approvals that have expired and, only when 256 others are left, the oldest of these.
   */
  lemma MintExact(actions: seq<Action>, project: string, command: string, run: Run, now: int, token: Token)
    requires Enabled(Execute(actions), Mint(project, command, run, now, token))
    ensures var w := Execute(actions); var next := Step(w, Mint(project, command, run, now, token));
      var live := Live(w.registry, now);
      if run in w.registry.cancelled then next == w
      else
        && (forall t :: t in next.registry.approvals <==> t == token || (t in live && !(|live| >= 256 && Oldest(w, live, t))))
        && (forall t :: t in live && t in next.registry.approvals ==> next.registry.approvals[t] == w.registry.approvals[t])
        && (|live| >= 256 ==> exists t :: Oldest(w, live, t))
  {
    var w := Execute(actions);
    ApprovalsAlways(actions);
    OrderedAlways(actions);
    hide Execute, Backed, Justified, Tidy, NoneDangling, Authorized, Ordered, Oldest;
    var r, live := w.registry, Live(w.registry, now);
    if run in r.cancelled {
      MintRefused(w, project, command, run, now, token);
    } else {
      MintLeaves(r, project, command, run, now, token);
      PurgeOrdered(r, now, w.log);
      if |live| >= 256 {
        FrontIsOldest(w, Purge(r, now), live);
        assert Oldest(w, live, Purge(r, now).order[0]);
      }
      hide Purge;
    }
  }

  lemma MintLeaves(r: Registry, project: string, command: string, run: Run, now: int, token: Token)
    requires Tidy(r) && token !in r.order && run !in r.cancelled
    ensures var (s, granted) := Authorized(r, project, command, run, now, token);
      var purged, live := Purge(r, now), Live(r, now);
      && granted && Tidy(purged) && NoneDangling(purged) && purged.approvals.Keys == live && token !in live
      && (|live| < 256 ==> s.approvals.Keys == live + {token})
      && (|live| >= 256 ==> purged.order != [] && s.approvals.Keys == live - {purged.order[0]} + {token})
      && (forall t :: t in live && t in s.approvals ==> s.approvals[t] == r.approvals[t])
  {
    PurgeTidy(r, now);
    AuthorizedTidy(r, project, command, run, now, token);
    hide Purge, Evict, Tidy, NoneDangling, Authorized;
    var purged, live := Purge(r, now), Live(r, now);
    assert purged.approvals.Keys == live;
    assert |purged.approvals| == |live|;
    EvictsFront(purged);
    GrantKeys(r, project, command, run, now, token);
    if |live| >= 256 { assert (purged.approvals - {purged.order[0]}).Keys == live - {purged.order[0]}; }
  }

  lemma GrantKeys(r: Registry, project: string, command: string, run: Run, now: int, token: Token)
    requires run !in r.cancelled
    ensures Authorized(r, project, command, run, now, token).0.approvals.Keys == Evict(Purge(r, now)).approvals.Keys + {token}
    ensures Authorized(r, project, command, run, now, token).1
  {
    hide Purge, Evict;
  }

  lemma MintRefused(w: World, project: string, command: string, run: Run, now: int, token: Token)
    requires Enabled(w, Mint(project, command, run, now, token)) && run in w.registry.cancelled
    ensures Step(w, Mint(project, command, run, now, token)) == w
  {
    hide Purge, Evict;
  }

  lemma FrontIsOldest(w: World, purged: Registry, live: set<Token>)
    requires purged.order != [] && Tidy(purged) && NoneDangling(purged) && Ordered(purged.order, w.log) && purged.approvals.Keys == live
    requires MintedOnce(w.log)
    ensures forall t :: Oldest(w, live, t) <==> t == purged.order[0]
  {
    var first := purged.order[0];
    hide MintedBefore;
    forall u | u in live && u != first ensures MintedBefore(w.log, first, u) {
      var k :| 0 <= k < |purged.order| && purged.order[k] == u;
    }
    forall t | Oldest(w, live, t) ensures t == first {
      if t != first { NotBoth(w.log, t, first); }
    }
  }

  lemma NotBoth(log: seq<Event>, t: Token, u: Token)
    requires MintedOnce(log)
    ensures !(MintedBefore(log, t, u) && MintedBefore(log, u, t))
  {
  }

  // ---- an execution that nothing has ended starts ----

  ghost predicate Open(w: World, t: Token) {
    t in w.leases && t !in w.dropped && !w.leases[t].completed && OpenSince(w.log, |w.log|, t, w.leases[t].run)
  }

  ghost predicate Startable(w: World, t: Token) {
    t in w.leases && IsActive(w.registry, w.leases[t].run, t) && w.leases[t].run !in w.registry.cancelled
  }

  ghost predicate StaysOpen(w: World) { forall t :: Open(w, t) ==> Startable(w, t) }

  lemma OpenBefore(log: seq<Event>, e: Event, token: Token, run: Run)
    requires OpenSince(log + [e], |log| + 1, token, run)
    ensures !Cancels(e, run)
    ensures OpenSince(log, |log|, token, run) || (e.Began? && e.token == token && e.run == run)
  {
    var k :| Opens(log + [e], k, |log| + 1, token, run);
    assert (log + [e])[|log|] == e;
    if k < |log| {
      forall m | k < m < |log| ensures !Cancels(log[m], run) { assert (log + [e])[m] == log[m]; }
      assert Opens(log, k, |log|, token, run);
    }
  }

  /** What the step leaves of a lease: it goes on as it was, and can still start if it could, unless its run is cancelled. */
  ghost predicate GoesOn(w: World, next: World, e: Event, t: Token) {
    && t in w.leases && t in next.leases && next.leases[t].run == w.leases[t].run && !(e.Began? && e.token == t)
    && (t !in next.dropped && !next.leases[t].completed ==> t !in w.dropped && !w.leases[t].completed)
    && (Startable(w, t) && !Cancels(e, w.leases[t].run) && t !in next.dropped && !next.leases[t].completed ==> Startable(next, t))
  }

  lemma StaysOpenKept(w: World, next: World, e: Event)
    requires StaysOpen(w) && next.log == w.log + [e]
    requires forall t :: t in next.leases ==> Startable(next, t) || GoesOn(w, next, e, t)
    ensures StaysOpen(next)
  {
    hide OpenSince, Startable, Cancels;
    forall t | Open(next, t) ensures Startable(next, t) {
      OpenBefore(w.log, e, t, next.leases[t].run);
      assert GoesOn(w, next, e, t) ==> Open(w, t);
    }
  }

  lemma MintStaysOpen(w: World, project: string, command: string, run: Run, now: int, token: Token)
    requires Approvals(w) && StaysOpen(w) && Enabled(w, Mint(project, command, run, now, token))
    ensures StaysOpen(Step(w, Mint(project, command, run, now, token)))
  {
    hide Authorized, Backed, Justified, Tidy, StaysOpen, Cancels;
    AuthorizedTidy(w.registry, project, command, run, now, token);
    var next := Step(w, Mint(project, command, run, now, token));
    if next.log != w.log { StaysOpenKept(w, next, next.log[|w.log|]); }
  }

  lemma BeginStaysOpen(w: World, project: string, command: string, run: Run, now: int, token: Token)
    requires Approvals(w) && StaysOpen(w)
    ensures StaysOpen(Step(w, Begin(project, command, run, now, token)))
  {
    hide Begun, Approvals, Opened, Tidy, StaysOpen, Cancels;
    ApprovalsFacts(w);
    BegunTidy(w.registry, project, command, run, token, now);
    var lease := Begun(w.registry, project, command, run, token, now).1;
    var next := Step(w, Begin(project, command, run, now, token));
    if lease.Some? { OpenedLookups(w.registry, next.registry, run, token); }
    StaysOpenKept(w, next, next.log[|w.log|]);
  }

  lemma StartStaysOpen(w: World, token: Token, pid: nat)
    requires Approvals(w) && StaysOpen(w) && Enabled(w, Start(token, pid))
    ensures StaysOpen(Step(w, Start(token, pid)))
  {
    hide Approvals, StaysOpen, Cancels;
    ApprovalsFacts(w);
    var next := Step(w, Start(token, pid));
    if next.log != w.log {
      StaysOpenKept(w, next, next.log[|w.log|]);
    } else {
      assert next.leases == w.leases;
    }
  }

  lemma LeaveStaysOpen(w: World, a: Action)
    requires Approvals(w) && StaysOpen(w) && (forall t :: Balanced(w, t)) && Enabled(w, a) && (a.Complete? || a.Drop?)
    ensures StaysOpen(Step(w, a))
  {
    hide Unregistered, Approvals, Count, Tidy, StaysOpen, Cancels, Tallies;
    ApprovalsFacts(w);
    assert Balanced(w, a.token);
    UnregisteredTidy(w.registry, w.leases[a.token]);
    var next := Step(w, a);
    StaysOpenKept(w, next, next.log[|w.log|]);
  }

  lemma CancelStaysOpen(w: World, a: Action)
    requires StaysOpen(w) && Enabled(w, a) && (a.Cancel? || a.CancelEvery?)
    ensures StaysOpen(Step(w, a))
  {
    hide StaysOpen, RememberAll, Openings, Running, Retain;
    var next := Step(w, a);
    StaysOpenKept(w, next, next.log[|w.log|]);
  }

  lemma {:induction false} StaysOpenAlways(actions: seq<Action>)
    ensures StaysOpen(Execute(actions))
  {
    if actions != [] {
      hide Step, StaysOpen, Approvals, Balanced, Enabled;
      var front, a := actions[..|actions| - 1], actions[|actions| - 1];
      StaysOpenAlways(front);
      ApprovalsAlways(front);
      forall t { BalancedAlways(front, t); }
      var w := Execute(front);
      if Enabled(w, a) {
        match a
        case Mint(project, command, run, now, token) => MintStaysOpen(w, project, command, run, now, token);
        case Begin(project, command, run, now, token) => BeginStaysOpen(w, project, command, run, now, token);
        case Start(token, pid) => StartStaysOpen(w, token, pid);
        case Complete(_) | Drop(_) => LeaveStaysOpen(w, a);
        case Cancel(_) | CancelEvery(_) => CancelStaysOpen(w, a);
      }
    }
  }

  /**
   * Over every run, an execution that has neither completed nor been dropped starts its process exactly when neither its run
   * nor every run has been cancelled since it was opened.
   */
  lemma StartExact(actions: seq<Action>, token: Token, pid: nat)
    requires Enabled(Execute(actions), Start(token, pid))
    ensures var w := Execute(actions); var run := w.leases[token].run;
      Step(w, Start(token, pid)).log
      == w.log + if OpenSince(w.log, |w.log|, token, run) then [Started(token, run)] else []
  {
    var w := Execute(actions);
    StaysOpenAlways(actions);
    TimelyAlways(actions);
    BalancedAlways(actions, token);
    hide OpenSince, Execute, Count, Tallies;
    assert Open(w, token) ==> Startable(w, token);
  }

  ghost predicate WasStarted(log: seq<Event>, token: Token) {
    exists i :: 0 <= i < |log| && log[i].Started? && log[i].token == token
  }

  lemma {:induction false} StartsCounted(log: seq<Event>, token: Token)
    ensures Count(log, Starts, token) > 0 <==> WasStarted(log, token)
  {
    if log != [] {
      var front, last := log[..|log| - 1], log[|log| - 1];
      StartsCounted(front, token);
      if WasStarted(front, token) {
        var i :| 0 <= i < |front| && front[i].Started? && front[i].token == token;
        assert log[i] == front[i];
      }
    }
  }

  /**
   * Over every run, a lease that has been neither completed nor dropped can be either. Its execution then leaves exactly when
   * no cancel has taken it since it was opened, and a drop signals its process exactly when it also was started.
   */
  lemma LeaveExact(actions: seq<Action>, token: Token)
    requires var w := Execute(actions); token in w.leases && token !in w.dropped && !w.leases[token].completed
    ensures var w := Execute(actions); var open := OpenSince(w.log, |w.log|, token, w.leases[token].run);
      && Enabled(w, Complete(token)) && Enabled(w, Drop(token))
      && Step(w, Complete(token)).log == w.log + [Finished(token, open)]
      && Step(w, Drop(token)).log == w.log + [Released(token, open, open && WasStarted(w.log, token))]
  {
    hide *;
    var w := Execute(actions);
    StaysOpenAlways(actions);
    TimelyAlways(actions);
    BalancedAlways(actions, token);
    ApprovalsAlways(actions);
    OpenIsActive(w, token);
    CompleteLeaves(w, token);
    DropLeaves(w, token);
    StartsCounted(w.log, token);
  }

  lemma OpenIsActive(w: World, token: Token)
    requires StaysOpen(w) && TimelyStarts(w) && token in w.leases && token !in w.dropped && !w.leases[token].completed
    ensures IsActive(w.registry, w.leases[token].run, token) <==> OpenSince(w.log, |w.log|, token, w.leases[token].run)
    ensures Enabled(w, Complete(token)) && Enabled(w, Drop(token))
  {
    hide OpenSince;
    assert Open(w, token) ==> Startable(w, token);
  }

  lemma CompleteLeaves(w: World, token: Token)
    requires Approvals(w) && Balanced(w, token) && Enabled(w, Complete(token))
    ensures Step(w, Complete(token)).log == w.log + [Finished(token, IsActive(w.registry, w.leases[token].run, token))]
  {
    hide Unregistered, Approvals, Count, Tidy;
    ApprovalsFacts(w);
    UnregisteredTidy(w.registry, w.leases[token]);
  }

  lemma DropLeaves(w: World, token: Token)
    requires Approvals(w) && Balanced(w, token) && Enabled(w, Drop(token)) && !w.leases[token].completed
    ensures var active := IsActive(w.registry, w.leases[token].run, token);
      Step(w, Drop(token)).log == w.log + [Released(token, active, active && Count(w.log, Starts, token) > 0)]
  {
    hide Unregistered, Approvals, Count, Tidy;
    ApprovalsFacts(w);
    UnregisteredTidy(w.registry, w.leases[token]);
  }

  // ---- a cancel of everything is remembered ----

  /** Neither an approval nor an open execution belongs to a run that is remembered as cancelled. */
  ghost predicate NoneCancelled(r: Registry) {
    && (forall t :: t in r.approvals ==> r.approvals[t].run !in r.cancelled)
    && (forall run :: run in r.active ==> run !in r.cancelled)
  }

  lemma NoneCancelledStep(w: World, a: Action)
    requires Approvals(w) && NoneCancelled(w.registry) && Enabled(w, a)
    ensures NoneCancelled(Step(w, a).registry)
  {
    hide *;
    match a
    case Mint(project, command, run, now, token) => NoneCancelledMint(w, project, command, run, now, token);
    case Begin(project, command, run, now, token) => NoneCancelledBegin(w, project, command, run, now, token);
    case _ => NoneCancelledOther(w, a);
  }

  lemma NoneCancelledMint(w: World, project: string, command: string, run: Run, now: int, token: Token)
    requires Approvals(w) && NoneCancelled(w.registry) && Enabled(w, Mint(project, command, run, now, token))
    ensures NoneCancelled(Step(w, Mint(project, command, run, now, token)).registry)
  {
    hide Backed, Justified, Authorized, Tidy;
    AuthorizedTidy(w.registry, project, command, run, now, token);
    MintGranted(w.registry, project, command, run, now, token);
  }

  lemma NoneCancelledBegin(w: World, project: string, command: string, run: Run, now: int, token: Token)
    requires Approvals(w) && NoneCancelled(w.registry)
    ensures NoneCancelled(Step(w, Begin(project, command, run, now, token)).registry)
  {
    hide Backed, Justified, Begun, Opened, Tidy;
    BegunTidy(w.registry, project, command, run, token, now);
    OpenedRuns(w.registry.active, run, token);
    var (s, lease) := Begun(w.registry, project, command, run, token, now);
    assert forall other :: other in s.active ==> other in w.registry.active || (lease.Some? && other == run);
  }

  lemma NoneCancelledOther(w: World, a: Action)
    requires NoneCancelled(w.registry) && Enabled(w, a) && !a.Mint? && !a.Begin?
    ensures NoneCancelled(Step(w, a).registry)
  {
    hide RememberAll, Retain, Openings, Running;
  }

  lemma OpenedRuns(active: map<Run, map<Token, Option<nat>>>, run: Run, token: Token)
    ensures forall other :: other in Opened(active, run, token) <==> other in active || other == run
  {
  }

  lemma MintGranted(r: Registry, project: string, command: string, run: Run, now: int, token: Token)
    ensures Authorized(r, project, command, run, now, token).1 <==> run !in r.cancelled
  {
    hide Purge, Evict;
  }

  lemma {:induction false} NoneCancelledAlways(actions: seq<Action>)
    ensures NoneCancelled(Execute(actions).registry)
  {
    if actions != [] {
      hide Step, Enabled, Approvals, NoneCancelled;
      var front, a := actions[..|actions| - 1], actions[|actions| - 1];
      NoneCancelledAlways(front);
      ApprovalsAlways(front);
      if Enabled(Execute(front), a) { NoneCancelledStep(Execute(front), a); }
    } else {
      assert Execute(actions) == INITIAL;
    }
  }

  lemma {:induction false} RememberOn(cancelled: seq<Run>, first: seq<Run>, later: seq<Run>)
    ensures RememberAll(cancelled, first + later) == RememberAll(RememberAll(cancelled, first), later)
  {
    if later == [] {
      assert first + later == first;
    } else {
      assert (first + later)[..|first + later| - 1] == first + later[..|later| - 1];
      RememberOn(cancelled, first, later[..|later| - 1]);
    }
  }

  lemma {:induction false} CountBound(cancelled: seq<Run>, runs: seq<Run>)
    ensures CountNew(cancelled, runs) <= |runs|
  {
    if runs != [] { CountBound(cancelled, runs[..|runs| - 1]); }
  }

  lemma {:induction false} OnlyAdded(cancelled: seq<Run>, runs: seq<Run>, run: Run)
    requires run in RememberAll(cancelled, runs)
    ensures run in cancelled || run in runs
  {
    if runs != [] {
      var front, last := runs[..|runs| - 1], runs[|runs| - 1];
      assert runs == front + [last];
      if run in RememberAll(cancelled, front) { OnlyAdded(cancelled, front, run); }
    }
  }

  lemma JustRemembered(cancelled: seq<Run>, runs: seq<Run>, i: nat)
    requires Distinct(runs) && i < |runs| && runs[i] !in cancelled
    ensures Recent(RememberAll(cancelled, runs[..i + 1]), runs[i], 0)
  {
    var queue, run := RememberAll(cancelled, runs[..i]), runs[i];
    if run in queue { OnlyAdded(cancelled, runs[..i], run); }
    assert run !in queue;
    LastIsRecent(queue, run);
    assert runs[..i + 1][..i] == runs[..i];
  }

  lemma LastRemembered(cancelled: seq<Run>, runs: seq<Run>, i: nat)
    requires |cancelled| <= MAX_CANCELLED_RUNS && Distinct(runs) && i < |runs| <= i + 256 && runs[i] !in cancelled
    ensures runs[i] in RememberAll(cancelled, runs)
  {
    JustRemembered(cancelled, runs, i);
    var first, later := runs[..i + 1], runs[i + 1..];
    RememberAllBound(cancelled, first);
    assert runs == first + later;
    StillRemembered(cancelled, first, later, runs[i]);
  }

  lemma StillRemembered(cancelled: seq<Run>, first: seq<Run>, later: seq<Run>, run: Run)
    requires |RememberAll(cancelled, first)| <= MAX_CANCELLED_RUNS && Recent(RememberAll(cancelled, first), run, 0) && |later| <= 255
    ensures run in RememberAll(cancelled, first + later)
  {
    hide Recent, RememberAll, CountNew;
    var queue := RememberAll(cancelled, first);
    CountBound(queue, later);
    RecentAll(queue, run, 0, later);
    RememberOn(cancelled, first, later);
    RecentIsIn(RememberAll(queue, later), run, CountNew(queue, later));
  }

  /**
   * Over every run, a cancel of everything remembers the runs that have an approval or an open execution: all of them when
   * there are no more than 256, and otherwise the last 256, in the order in which they are walked.
   */
  lemma CancelAllRemembers(actions: seq<Action>, runs: seq<Run>)
    requires Enabled(Execute(actions), CancelEvery(runs))
    ensures var r := Execute(actions).registry; var next := Step(Execute(actions), CancelEvery(runs)).registry;
      && next.approvals == map[] && next.active == map[]
      && (forall run :: run in runs <==> run in r.active || exists t :: t in r.approvals && r.approvals[t].run == run)
      && (forall i: nat :: i < |runs| <= i + 256 ==> runs[i] in next.cancelled)
  {
    hide Execute, Openings, Running, RememberAll;
    var r := Execute(actions).registry;
    NoneCancelledAlways(actions);
    QueueAlwaysTidy(actions);
    assert Enumerates(runs, r);
    forall i: nat | i < |runs| <= i + 256 ensures runs[i] in RememberAll(r.cancelled, runs) { LastRemembered(r.cancelled, runs, i); }
  }
}
