/** Every interleaving of registrations, guard drops and cancels; each step holds one table's lock. */
module ResourceTrace {
  import opened Wrappers
  import opened RunResources

  /**
   * A run registers its five resources (`at` below 5), is live with its guard (`at` 5), and then drops them one by one
   * until it is gone (`at` 10).
   */
  datatype Run = Run(id: string, handle: nat, at: nat)

  /** `inHand` holds what some thread has taken out of a table and will halt without a lock. */
  datatype World = World(shared: Shared, inHand: set<(Kind, nat)>, runs: map<nat, Run>)

  const INITIAL := World(Shared(EMPTY, {}), {}, map[])

  datatype Action =
    | Begin(generation: nat, id: string, handle: nat)
    | Advance(generation: nat)
    | Take(kind: Kind, id: string)
    | TakeOwned(kind: Kind, id: string, generation: nat)
    | Drain(kind: Kind)
    | Stop(kind: Kind, handle: nat)

  /** Generations and handles are fresh; `cancel_run` takes tokens, steers and managers whoever owns them. */
  ghost predicate Enabled(w: World, a: Action) {
    match a
    case Begin(g, _, handle) => g !in w.runs && forall other :: other in w.runs ==> w.runs[other].handle != handle
    case Advance(g) => g in w.runs && w.runs[g].at < 10
    case Take(kind, _) => kind.Steer? || kind.Token? || kind.Manager?
    case TakeOwned(kind, _, _) => kind.Project? || kind.Tools?
    case Drain(_) => true
    case Stop(kind, handle) => (kind, handle) in w.inHand
  }

  ghost function Drained(kind: Kind, table: Table): set<(Kind, nat)> {
    if Stoppable(kind) then set id | id in table :: (kind, table[id].value) else {}
  }

  ghost function Step(w: World, a: Action): World
    requires Enabled(w, a)
  {
    match a
    case Begin(g, id, handle) => w.(runs := w.runs[g := Run(id, handle, 0)])
    case Advance(g) =>
      var run := w.runs[g];
      var runs := w.runs[g := run.(at := run.at + 1)];
      if run.at < 5 then World(Inserted(w.shared, REGISTER_ORDER[run.at], run.id, Resource(g, run.handle)), w.inHand, runs)
      else
        var kind := DROP_ORDER[run.at - 5];
        var (tables, value) := Removed(w.shared.tables, kind, run.id, g);
        World(w.shared.(tables := tables), w.inHand + Halting(kind, value), runs)
    case Take(kind, id) =>
      var (tables, value) := Taken(w.shared.tables, kind, id);
      if kind.Manager? then w.(shared := Shared(tables, w.shared.halted + Halting(kind, value)))
      else World(w.shared.(tables := tables), w.inHand + Halting(kind, value), w.runs)
    case TakeOwned(kind, id, g) => w.(shared := w.shared.(tables := Removed(w.shared.tables, kind, id, g).0))
    case Drain(kind) =>
      World(w.shared.(tables := w.shared.tables.With(kind, map[])), w.inHand + Drained(kind, w.shared.tables.At(kind)), w.runs)
    case Stop(kind, handle) =>
      World(w.shared.(halted := w.shared.halted + {(kind, handle)}), w.inHand - {(kind, handle)}, w.runs)
  }

  ghost function Execute(w: World, actions: seq<Action>): World {
    if actions == [] then w
    else
      var v := Execute(w, actions[..|actions| - 1]);
      var a := actions[|actions| - 1];
      if Enabled(v, a) then Step(v, a) else v
  }

  // ---- what every step keeps ----

  function InsertedAt(kind: Kind): nat {
    match kind case Steer => 0 case Token => 1 case Manager => 2 case Project => 3 case Tools => 4
  }

  function DroppedAt(kind: Kind): nat {
    match kind case Token => 5 case Steer => 6 case Project => 7 case Tools => 8 case Manager => 9
  }

  /** The run has inserted its resource and its guard has yet to remove it. */
  ghost predicate Outstanding(run: Run, kind: Kind) { InsertedAt(kind) < run.at <= DroppedAt(kind) }

  ghost predicate Current(w: World, g: nat, kind: Kind)
    requires g in w.runs
  {
    var table := w.shared.tables.At(kind);
    w.runs[g].id in table && table[w.runs[g].id] == Resource(g, w.runs[g].handle)
  }

  /** Every entry belongs to a run whose guard is outstanding. */
  ghost predicate EntryGuarded(w: World, kind: Kind, id: string)
    requires id in w.shared.tables.At(kind)
  {
    var resource := w.shared.tables.At(kind)[id];
    && resource.generation in w.runs
    && w.runs[resource.generation].id == id && w.runs[resource.generation].handle == resource.value
    && Outstanding(w.runs[resource.generation], kind)
  }

  ghost predicate Guarded(w: World) {
    && (forall kind, id :: id in w.shared.tables.At(kind) ==> EntryGuarded(w, kind, id))
    && (forall g :: g in w.runs ==> w.runs[g].at <= 10)
  }

  ghost predicate HandlesDistinct(w: World) {
    forall g, h :: g in w.runs && h in w.runs && w.runs[g].handle == w.runs[h].handle ==> g == h
  }

  predicate ExactlyOne(a: bool, b: bool, c: bool) { (a || b || c) && !(a && b) && !(a && c) && !(b && c) }

  /** A registered token is the current entry of its request, or cancelled, or about to be; likewise a manager. */
  ghost predicate RunAccounted(w: World, g: nat, kind: Kind)
    requires g in w.runs
  {
    var key := (kind, w.runs[g].handle);
    if InsertedAt(kind) < w.runs[g].at
    then ExactlyOne(Current(w, g, kind), key in w.shared.halted, key in w.inHand)
    else key !in w.shared.halted && key !in w.inHand
  }

  /** Only what runs registered is halted. */
  ghost predicate Accounted(w: World) {
    && (forall g, kind :: g in w.runs && Stoppable(kind) ==> RunAccounted(w, g, kind))
    && (forall key :: key in w.shared.halted + w.inHand ==> HasRun(w, key.1))
  }

  ghost predicate HasRun(w: World, handle: nat) { exists g :: g in w.runs && w.runs[g].handle == handle }

  ghost predicate Sound(w: World) { Guarded(w) && HandlesDistinct(w) && Accounted(w) }

  /** Removing entries, with every run as it was, keeps the rest guarded. */
  lemma ShrinkGuarded(w: World, next: World)
    requires Guarded(w)
    requires forall kind, id :: id in next.shared.tables.At(kind)
               ==> id in w.shared.tables.At(kind) && next.shared.tables.At(kind)[id] == w.shared.tables.At(kind)[id]
    requires forall g :: g in w.runs ==> g in next.runs && next.runs[g] == w.runs[g]
    requires forall g :: g in next.runs && g !in w.runs ==> next.runs[g].at == 0
    ensures Guarded(next)
  {
    forall kind, id | id in next.shared.tables.At(kind) ensures EntryGuarded(next, kind, id) {
      assert EntryGuarded(w, kind, id);
    }
  }

  lemma InsertGuarded(w: World, g: nat)
    requires Sound(w) && Enabled(w, Advance(g)) && w.runs[g].at < 5
    ensures Guarded(Step(w, Advance(g)))
  {
    hide Accounted, HandlesDistinct;
    var next := Step(w, Advance(g));
    var kind := REGISTER_ORDER[w.runs[g].at];
    forall other, id | id in next.shared.tables.At(other) ensures EntryGuarded(next, other, id) {
      if other != kind || id != w.runs[g].id {
        assert EntryGuarded(w, other, id);
      }
    }
  }

  lemma ReleaseGuarded(w: World, g: nat)
    requires Sound(w) && Enabled(w, Advance(g)) && w.runs[g].at >= 5
    ensures Guarded(Step(w, Advance(g)))
  {
    hide Accounted, HandlesDistinct;
    var next := Step(w, Advance(g));
    var kind := DROP_ORDER[w.runs[g].at - 5];
    forall other, id | id in next.shared.tables.At(other) ensures EntryGuarded(next, other, id) {
      assert EntryGuarded(w, other, id);
      assert next.shared.tables.At(other)[id] == w.shared.tables.At(other)[id];
    }
  }

  lemma StepGuarded(w: World, a: Action)
    requires Sound(w) && Enabled(w, a)
    ensures Guarded(Step(w, a)) && HandlesDistinct(Step(w, a))
  {
    hide Accounted, Guarded;
    match a
    case Advance(g) => if w.runs[g].at < 5 { InsertGuarded(w, g); } else { ReleaseGuarded(w, g); }
    case _ => ShrinkGuarded(w, Step(w, a));
  }

  /** A step that leaves the run and its key alone, and its entry where it is, leaves its account. */
  lemma SameAccount(w: World, next: World, g: nat, kind: Kind)
    requires g in w.runs && g in next.runs && next.runs[g].id == w.runs[g].id && next.runs[g].handle == w.runs[g].handle
    requires (InsertedAt(kind) < next.runs[g].at) == (InsertedAt(kind) < w.runs[g].at)
    requires Current(next, g, kind) == Current(w, g, kind)
    requires ((kind, w.runs[g].handle) in next.shared.halted) == ((kind, w.runs[g].handle) in w.shared.halted)
    requires ((kind, w.runs[g].handle) in next.inHand) == ((kind, w.runs[g].handle) in w.inHand)
    requires RunAccounted(w, g, kind)
    ensures RunAccounted(next, g, kind)
  {
  }

  /** A new run starts with nothing halted: its handle is fresh. */
  lemma BeginAccounted(w: World, a: Action, h: nat, kind: Kind)
    requires Sound(w) && Enabled(w, a) && a.Begin? && h in Step(w, a).runs && Stoppable(kind)
    ensures RunAccounted(Step(w, a), h, kind)
  {
    if h in w.runs {
      SameAccount(w, Step(w, a), h, kind);
    } else {
      assert (kind, a.handle) in w.shared.halted + w.inHand ==> HasRun(w, a.handle);
    }
  }

  lemma InsertAccounted(w: World, g: nat, h: nat, kind: Kind)
    requires Sound(w) && Enabled(w, Advance(g)) && w.runs[g].at < 5 && h in w.runs && Stoppable(kind)
    ensures RunAccounted(Step(w, Advance(g)), h, kind)
  {
    var next := Step(w, Advance(g));
    assert RunAccounted(w, h, kind);
    var inserted := REGISTER_ORDER[w.runs[g].at];
    if w.runs[g].id in w.shared.tables.At(inserted) {
      assert EntryGuarded(w, inserted, w.runs[g].id);
    }
    hide Guarded, Accounted;
    if kind != inserted {
      SameAccount(w, next, h, kind);
    }
  }

  lemma ReleaseAccounted(w: World, g: nat, h: nat, kind: Kind)
    requires Sound(w) && Enabled(w, Advance(g)) && w.runs[g].at >= 5 && h in w.runs && Stoppable(kind)
    ensures RunAccounted(Step(w, Advance(g)), h, kind)
  {
    var next := Step(w, Advance(g));
    assert RunAccounted(w, h, kind);
    var dropped := DROP_ORDER[w.runs[g].at - 5];
    if w.runs[g].id in w.shared.tables.At(dropped) {
      assert EntryGuarded(w, dropped, w.runs[g].id);
    }
    hide Guarded, Accounted;
    if kind != dropped || h != g {
      SameAccount(w, next, h, kind);
    }
  }

  lemma TakeAccounted(w: World, a: Action, h: nat, kind: Kind)
    requires Sound(w) && Enabled(w, a) && (a.Take? || a.TakeOwned?) && h in w.runs && Stoppable(kind)
    ensures RunAccounted(Step(w, a), h, kind)
  {
    assert RunAccounted(w, h, kind);
    if a.id in w.shared.tables.At(a.kind) {
      assert EntryGuarded(w, a.kind, a.id);
    }
    hide Guarded, Accounted;
    if kind != a.kind {
      SameAccount(w, Step(w, a), h, kind);
    }
  }

  lemma DrainAccounted(w: World, a: Action, h: nat, kind: Kind)
    requires Sound(w) && Enabled(w, a) && a.Drain? && h in w.runs && Stoppable(kind)
    ensures RunAccounted(Step(w, a), h, kind)
  {
    assert RunAccounted(w, h, kind);
    var table := w.shared.tables.At(kind);
    if kind == a.kind {
      forall id | id in table && table[id].value == w.runs[h].handle ensures Current(w, h, kind) {
        assert EntryGuarded(w, kind, id);
      }
    }
    hide Guarded, Accounted;
    if kind != a.kind {
      SameAccount(w, Step(w, a), h, kind);
    }
  }

  lemma StopAccounted(w: World, a: Action, h: nat, kind: Kind)
    requires Sound(w) && Enabled(w, a) && a.Stop? && h in w.runs && Stoppable(kind)
    ensures RunAccounted(Step(w, a), h, kind)
  {
    assert RunAccounted(w, h, kind);
    hide Guarded, Accounted;
  }

  lemma StepAccounted(w: World, a: Action)
    requires Sound(w) && Enabled(w, a)
    ensures Accounted(Step(w, a))
  {
    var next := Step(w, a);
    KeysHaveRuns(w, a);
    hide RunAccounted, Guarded;
    forall h, kind | h in next.runs && Stoppable(kind) ensures RunAccounted(next, h, kind) {
      match a
      case Begin(_, _, _) => BeginAccounted(w, a, h, kind);
      case Advance(g) => if w.runs[g].at < 5 { InsertAccounted(w, g, h, kind); } else { ReleaseAccounted(w, g, h, kind); }
      case Drain(_) => DrainAccounted(w, a, h, kind);
      case Stop(_, _) => StopAccounted(w, a, h, kind);
      case _ => TakeAccounted(w, a, h, kind);
    }
  }

  lemma KeysHaveRuns(w: World, a: Action)
    requires Sound(w) && Enabled(w, a)
    ensures forall key :: key in Step(w, a).shared.halted + Step(w, a).inHand ==> HasRun(Step(w, a), key.1)
  {
    var next := Step(w, a);
    forall key | key in next.shared.halted + next.inHand ensures HasRun(next, key.1) {
      if key in w.shared.halted + w.inHand {
        var g :| g in w.runs && w.runs[g].handle == key.1;
        assert g in next.runs && next.runs[g].handle == key.1;
      } else {
        var id :| id in w.shared.tables.At(key.0) && w.shared.tables.At(key.0)[id].value == key.1;
        assert EntryGuarded(w, key.0, id);
        var g := w.shared.tables.At(key.0)[id].generation;
        assert g in next.runs && next.runs[g].handle == key.1;
      }
    }
  }

  lemma {:induction false} AlwaysSound(w: World, actions: seq<Action>)
    requires Sound(w)
    ensures Sound(Execute(w, actions))
  {
    hide Guarded, HandlesDistinct, Accounted, Step;
    if actions != [] {
      var before := actions[..|actions| - 1];
      AlwaysSound(w, before);
      var v := Execute(w, before);
      var a := actions[|actions| - 1];
      if Enabled(v, a) {
        StepGuarded(v, a);
        StepAccounted(v, a);
      }
    }
  }

  // ---- what holds of every run ----

  /** Every token ever registered is its request's current entry, or cancelled, or about to be; likewise every manager. */
  lemma EveryTokenAccounted(actions: seq<Action>, g: nat, kind: Kind)
    requires var w := Execute(INITIAL, actions); g in w.runs && w.runs[g].at > InsertedAt(kind) && Stoppable(kind)
    ensures var w := Execute(INITIAL, actions); var key := (kind, w.runs[g].handle);
            ExactlyOne(Current(w, g, kind), key in w.shared.halted, key in w.inHand)
  {
    AlwaysSound(INITIAL, actions);
    assert RunAccounted(Execute(INITIAL, actions), g, kind);
  }

  /** Every entry of the five tables was put there by a run whose guard has yet to remove it. */
  lemma EveryEntryGuarded(actions: seq<Action>, kind: Kind, id: string)
    requires id in Execute(INITIAL, actions).shared.tables.At(kind)
    ensures var w := Execute(INITIAL, actions);
            exists g :: g in w.runs && w.runs[g].id == id && Outstanding(w.runs[g], kind)
                     && w.shared.tables.At(kind)[id] == Resource(g, w.runs[g].handle)
  {
    AlwaysSound(INITIAL, actions);
    assert EntryGuarded(Execute(INITIAL, actions), kind, id);
  }

  /** When every guard is gone the five tables are empty, and once no thread holds anything, everything was halted. */
  lemma AllGone(actions: seq<Action>)
    requires forall g :: g in Execute(INITIAL, actions).runs ==> Execute(INITIAL, actions).runs[g].at == 10
    ensures var w := Execute(INITIAL, actions);
            && w.shared.tables == EMPTY
            && (w.inHand == {} ==>
                  (forall g :: g in w.runs
                     ==> (Token, w.runs[g].handle) in w.shared.halted && (Manager, w.runs[g].handle) in w.shared.halted))
  {
    var w := Execute(INITIAL, actions);
    AlwaysSound(INITIAL, actions);
    forall kind: Kind ensures w.shared.tables.At(kind) == map[] {
      var table := w.shared.tables.At(kind);
      assert forall id :: id in table ==> EntryGuarded(w, kind, id);
      assert table.Keys == {};
    }
    assert w.shared.tables.At(Steer) == map[] && w.shared.tables.At(Token) == map[] && w.shared.tables.At(Manager) == map[]
        && w.shared.tables.At(Project) == map[] && w.shared.tables.At(Tools) == map[];
    forall g | g in w.runs && w.inHand == {}
      ensures (Token, w.runs[g].handle) in w.shared.halted && (Manager, w.runs[g].handle) in w.shared.halted
    {
      assert RunAccounted(w, g, Token) && RunAccounted(w, g, Manager);
    }
  }

  /** Dropping a guard removes the entries of its own generation and touches no other entry of any table. */
  lemma {:induction false} DropTouchesOwn(s: Shared, id: string, g: nat, n: nat, kind: Kind)
    requires n <= 5
    ensures var table, after := s.tables.At(kind), Released(s, id, g, n).tables.At(kind);
            && (forall k :: k in table && (k != id || table[k].generation != g) ==> k in after && after[k] == table[k])
            && (forall k :: k in after ==> k in table && after[k] == table[k])
            && (DroppedAt(kind) - 5 < n ==> !Owns(after, id, g))
  {
    if n > 0 {
      DropTouchesOwn(s, id, g, n - 1, kind);
    }
  }

  /** The same of one removal, in the middle of anything else. */
  lemma ReleaseTouchesOwn(w: World, g: nat, kind: Kind, id: string)
    requires Enabled(w, Advance(g)) && w.runs[g].at >= 5
    requires id in w.shared.tables.At(kind) && w.shared.tables.At(kind)[id].generation != g
    ensures var next := Step(w, Advance(g)); id in next.shared.tables.At(kind) && next.shared.tables.At(kind)[id] == w.shared.tables.At(kind)[id]
  {
  }

  /** A registration that nothing interrupts is five steps. */
  lemma {:induction false} RegisterIsSteps(w: World, g: nat, n: nat)
    requires n <= 5 && g in w.runs && w.runs[g].at == 0
    ensures var run := w.runs[g];
            Execute(w, seq(n, _ => Advance(g)))
            == World(Registered(w.shared, run.id, Resource(g, run.handle), n), w.inHand, w.runs[g := run.(at := n)])
  {
    hide Inserted;
    if n == 0 {
      assert w.runs[g := w.runs[g].(at := 0)] == w.runs;
    } else {
      RegisterIsSteps(w, g, n - 1);
      assert seq(n, _ => Advance(g))[..n - 1] == seq(n - 1, _ => Advance(g));
      assert w.runs[g := w.runs[g].(at := n - 1)][g := w.runs[g].(at := n)] == w.runs[g := w.runs[g].(at := n)];
    }
  }

  /** In every run, a request that begins and is not interrupted ends up with its own resource in each of the five tables. */
  lemma RunRegisters(actions: seq<Action>, g: nat, id: string, handle: nat)
    requires Enabled(Execute(INITIAL, actions), Begin(g, id, handle))
    ensures var w := Execute(Execute(INITIAL, actions + [Begin(g, id, handle)]), seq(5, _ => Advance(g)));
      && g in w.runs && w.runs[g] == Run(id, handle, 5)
      && forall kind: Kind :: Current(w, g, kind)
  {
    var begun := Execute(INITIAL, actions + [Begin(g, id, handle)]);
    assert (actions + [Begin(g, id, handle)])[..|actions|] == actions;
    assert g in begun.runs && begun.runs[g] == Run(id, handle, 0);
    hide Execute, Registered;
    RegisterIsSteps(begun, g, 5);
    RegisteredUnfold(begun.shared, id, Resource(g, handle));
  }

  /** A guard that nothing interrupts is dropped in five steps, whose halts come later. */
  lemma {:induction false} DropIsSteps(w: World, g: nat, n: nat)
    requires n <= 5 && g in w.runs && w.runs[g].at == 5
    ensures var run := w.runs[g]; var next := Execute(w, seq(n, _ => Advance(g))); var released := Released(w.shared, run.id, g, n);
            && next.shared.tables == released.tables && next.runs == w.runs[g := run.(at := 5 + n)]
            && next.shared.halted + next.inHand == released.halted + w.inHand
  {
    hide Removed;
    if n == 0 {
      assert w.runs[g := w.runs[g].(at := 5)] == w.runs;
    } else {
      DropIsSteps(w, g, n - 1);
      assert seq(n, _ => Advance(g))[..n - 1] == seq(n - 1, _ => Advance(g));
      assert w.runs[g := w.runs[g].(at := 4 + n)][g := w.runs[g].(at := 5 + n)] == w.runs[g := w.runs[g].(at := 5 + n)];
    }
  }

  // ---- cancelling ----

  /** The steps of `cancel_run`, for the generation that it found active, if any. */
  function CancelSteps(id: string, active: Option<nat>): seq<Action> {
    [Take(Token, id), Take(Steer, id)]
    + (if active.Some? then [TakeOwned(Project, id, active.value), TakeOwned(Tools, id, active.value)] else [])
    + [Take(Manager, id)]
  }

  /** A cancel that nothing interrupts leaves the tables as the method `CancelRun` does. */
  lemma CancelIsSteps(w: World, id: string, active: Option<nat>)
    ensures var t := w.shared.tables;
            Execute(w, CancelSteps(id, active)).shared.tables
            == Tables(t.steer - {id}, t.tokens - {id}, t.managers - {id},
                      if active.Some? then Without(t.projects, id, active.value) else t.projects,
                      if active.Some? then Without(t.tools, id, active.value) else t.tools)
  {
    hide Execute;
    var t1 := After(w, [], Take(Token, id));
    assert [] + [Take(Token, id)] == [Take(Token, id)];
    var t2 := After(w, [Take(Token, id)], Take(Steer, id));
    var two := [Take(Token, id)] + [Take(Steer, id)];
    if active.Some? {
      var g := active.value;
      var t3 := After(w, two, TakeOwned(Project, id, g));
      var t4 := After(w, two + [TakeOwned(Project, id, g)], TakeOwned(Tools, id, g));
      var t5 := After(w, two + [TakeOwned(Project, id, g)] + [TakeOwned(Tools, id, g)], Take(Manager, id));
      assert CancelSteps(id, active) == two + [TakeOwned(Project, id, g)] + [TakeOwned(Tools, id, g)] + [Take(Manager, id)];
    } else {
      var t3 := After(w, two, Take(Manager, id));
      assert t3 == w.shared.tables.(tokens := t1.tokens - {id}, steer := t1.steer - {id});
      assert CancelSteps(id, active) == two + [Take(Manager, id)];
    }
  }

  /** What one more removal does to the tables. */
  lemma After(w: World, before: seq<Action>, a: Action) returns (tables: Tables)
    requires (a.Take? || a.TakeOwned?) && Enabled(Execute(w, before), a)
    ensures tables == (if before == [] then w else Execute(w, before)).shared.tables
    ensures Execute(w, before + [a]).shared.tables
            == tables.With(a.kind, if a.Take? then tables.At(a.kind) - {a.id} else Without(tables.At(a.kind), a.id, a.generation))
  {
    tables := Execute(w, before).shared.tables;
    assert (before + [a])[..|before|] == before;
    var table := tables.At(a.kind);
    if a.id !in table {
      assert table - {a.id} == table && tables.With(a.kind, table) == tables;
    }
  }

  const CANCEL_ALL := [Drain(Token), Drain(Steer), Drain(Project), Drain(Tools), Drain(Manager)]

  /** A cancel of everything that nothing interrupts empties the tables and takes every token and manager to halt. */
  lemma CancelAllIsSteps(w: World)
    ensures var t := w.shared.tables; var next := Execute(w, CANCEL_ALL);
      && next.shared == Shared(EMPTY, w.shared.halted) && next.runs == w.runs
      && next.inHand == w.inHand + (set id | id in t.tokens :: (Token, t.tokens[id].value))
                                 + (set id | id in t.managers :: (Manager, t.managers[id].value))
  {
    var t := w.shared.tables;
    var one, two, three := [Drain(Token)], [Drain(Token), Drain(Steer)], [Drain(Token), Drain(Steer), Drain(Project)];
    assert [] + one == one && one + [Drain(Steer)] == two && two + [Drain(Project)] == three;
    assert CANCEL_ALL == three + [Drain(Tools)] + [Drain(Manager)];
    DrainNext(w, [], Token);
    DrainNext(w, one, Steer);
    DrainNext(w, two, Project);
    DrainNext(w, three, Tools);
    DrainNext(w, three + [Drain(Tools)], Manager);
    hide Execute, Drained;
    var tokens := Drained(Token, t.tokens);
    assert Execute(w, one) == World(w.shared.(tables := t.(tokens := map[])), w.inHand + tokens, w.runs);
    assert Execute(w, two) == World(w.shared.(tables := t.(tokens := map[], steer := map[])), w.inHand + tokens, w.runs);
    assert Execute(w, three) == World(w.shared.(tables := EMPTY.(managers := t.managers, tools := t.tools)), w.inHand + tokens, w.runs);
    assert Execute(w, three + [Drain(Tools)])
        == World(w.shared.(tables := EMPTY.(managers := t.managers)), w.inHand + tokens, w.runs);
    DrainedIs(Token, t.tokens);
    DrainedIs(Manager, t.managers);
  }

  lemma DrainNext(w: World, before: seq<Action>, kind: Kind)
    ensures var v := Execute(w, before);
      Execute(w, before + [Drain(kind)])
      == World(v.shared.(tables := v.shared.tables.With(kind, map[])),
               if kind.Token? || kind.Manager? then v.inHand + Drained(kind, v.shared.tables.At(kind)) else v.inHand, v.runs)
  {
    assert (before + [Drain(kind)])[..|before|] == before;
  }

  lemma DrainedIs(kind: Kind, table: Table)
    ensures Drained(kind, table) == if kind.Token? || kind.Manager? then set id | id in table :: (kind, table[id].value) else {}
  {
  }

  /** Halted, or in the hands of a thread that will halt it. */
  ghost predicate Out(w: World, key: (Kind, nat)) { key in w.shared.halted || key in w.inHand }

  lemma {:induction false} OutForGood(w: World, key: (Kind, nat), later: seq<Action>)
    requires Out(w, key)
    ensures Out(Execute(w, later), key)
  {
    if later != [] {
      OutForGood(w, key, later[..|later| - 1]);
    }
  }

  /** A cancel of the request, or a cancel of everything, reaches every token and manager registered for it before. */
  lemma CancelReaches(w: World, a: Action, g: nat, kind: Kind, later: seq<Action>)
    requires Sound(w) && Enabled(w, a) && Stoppable(kind) && g in w.runs && w.runs[g].at > InsertedAt(kind)
    requires a == Take(kind, w.runs[g].id) || a == Drain(kind)
    ensures Out(Execute(Step(w, a), later), (kind, w.runs[g].handle))
  {
    assert RunAccounted(w, g, kind);
    OutForGood(Step(w, a), (kind, w.runs[g].handle), later);
  }

  /** Neither the run itself nor another run of its request moves, and no cancel names the request. */
  ghost predicate Undisturbed(w: World, a: Action, g: nat)
    requires g in w.runs
  {
    match a
    case Begin(_, _, _) => true
    case Advance(h) => h != g && (h in w.runs ==> w.runs[h].id != w.runs[g].id)
    case Take(_, id) => id != w.runs[g].id
    case TakeOwned(_, id, h) => id != w.runs[g].id || h != g
    case Drain(_) => false
    case Stop(_, _) => true
  }

  /** A live run keeps its five entries, and its token and manager are left alone, until something disturbs it. */
  lemma {:induction false} StaysCurrent(w: World, g: nat, actions: seq<Action>)
    requires Sound(w) && g in w.runs && w.runs[g].at == 5 && forall kind :: Current(w, g, kind)
    requires forall i :: 0 <= i < |actions| ==>
               g in Execute(w, actions[..i]).runs && Undisturbed(Execute(w, actions[..i]), actions[i], g)
    ensures var next := Execute(w, actions);
            && g in next.runs && next.runs[g] == w.runs[g]
            && forall kind :: Current(next, g, kind) && (Stoppable(kind) ==> !Out(next, (kind, w.runs[g].handle)))
  {
    var next := Execute(w, actions);
    AlwaysSound(w, actions);
    hide Sound;
    if actions != [] {
      var before := actions[..|actions| - 1];
      forall i | 0 <= i < |before| ensures before[..i] == actions[..i] && before[i] == actions[i] {}
      StaysCurrent(w, g, before);
      if Enabled(Execute(w, before), actions[|actions| - 1]) {
        StepStaysCurrent(Execute(w, before), actions[|actions| - 1], g);
      }
    }
    forall kind | Stoppable(kind) ensures !Out(next, (kind, w.runs[g].handle)) {
      assert Sound(next) && RunAccounted(next, g, kind) && Current(next, g, kind);
    }
  }

  lemma StepStaysCurrent(w: World, a: Action, g: nat)
    requires g in w.runs && (forall kind :: Current(w, g, kind)) && Undisturbed(w, a, g) && Enabled(w, a)
    ensures var next := Step(w, a); g in next.runs && next.runs[g] == w.runs[g] && forall kind :: Current(next, g, kind)
  {
    forall kind ensures Current(Step(w, a), g, kind) {
      assert Current(w, g, kind);
    }
  }
}
