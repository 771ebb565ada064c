/** The five tables of resources that agent runs register, keyed by request and stamped with a generation. */
module RunResources {
  import opened Wrappers

  datatype Kind = Steer | Token | Manager | Project | Tools

  /** The value names the run's own handle. */
  datatype Resource = Resource(generation: nat, value: nat)

  type Table = map<string, Resource>

  datatype Tables = Tables(steer: Table, tokens: Table, managers: Table, projects: Table, tools: Table) {
    function At(kind: Kind): Table {
      match kind
      case Steer => steer
      case Token => tokens
      case Manager => managers
      case Project => projects
      case Tools => tools
    }

    function With(kind: Kind, table: Table): (r: Tables)
      ensures r.At(kind) == table && forall other :: other != kind ==> r.At(other) == At(other)
    {
      match kind
      case Steer => this.(steer := table)
      case Token => this.(tokens := table)
      case Manager => this.(managers := table)
      case Project => this.(projects := table)
      case Tools => this.(tools := table)
    }
  }

  /** `halted` holds the cancelled tokens and the interrupted managers. */
  datatype Shared = Shared(tables: Tables, halted: set<(Kind, nat)>)

  const EMPTY := Tables(map[], map[], map[], map[], map[])

  /** Tokens are cancelled and managers interrupted; the other resources are only dropped. */
  predicate Stoppable(kind: Kind) { kind.Token? || kind.Manager? }

  /** An insertion; what it replaces is halted under the same lock. */
  function Inserted(s: Shared, kind: Kind, id: string, resource: Resource): Shared {
    var table := s.tables.At(kind);
    Shared(s.tables.With(kind, table[id := resource]),
           s.halted + if Stoppable(kind) && id in table then {(kind, table[id].value)} else {})
  }

  predicate Owns(table: Table, id: string, generation: nat) { id in table && table[id].generation == generation }

  /** `remove_run_resource`. */
  function Removed(tables: Tables, kind: Kind, id: string, generation: nat): (Tables, Option<nat>) {
    var table := tables.At(kind);
    if Owns(table, id, generation) then (tables.With(kind, table - {id}), Some(table[id].value)) else (tables, None)
  }

  function Taken(tables: Tables, kind: Kind, id: string): (Tables, Option<nat>) {
    var table := tables.At(kind);
    if id in table then (tables.With(kind, table - {id}), Some(table[id].value)) else (tables, None)
  }

  function Halting(kind: Kind, value: Option<nat>): set<(Kind, nat)> {
    if value.Some? && Stoppable(kind) then {(kind, value.value)} else {}
  }

  // ---- the operations, each alone ----

  const REGISTER_ORDER := [Steer, Token, Manager, Project, Tools]
  const DROP_ORDER := [Token, Steer, Project, Tools, Manager]

  /** The first `n` insertions of `register_run_resources`. */
  function Registered(s: Shared, id: string, resource: Resource, n: nat): Shared
    requires n <= 5
  {
    if n == 0 then s else Inserted(Registered(s, id, resource, n - 1), REGISTER_ORDER[n - 1], id, resource)
  }

  /** The first `n` removals of a dropped guard; what it removes is halted. */
  function Released(s: Shared, id: string, generation: nat, n: nat): Shared
    requires n <= 5
  {
    if n == 0 then s
    else
      var before := Released(s, id, generation, n - 1);
      var (tables, value) := Removed(before.tables, DROP_ORDER[n - 1], id, generation);
      Shared(tables, before.halted + Halting(DROP_ORDER[n - 1], value))
  }

  /** `AgentState`: the tables, the generation active for each request, and what was told to stop. */
  class AgentState {
    var steerSenders: Table
    var runTokens: Table
    var subagentManagers: Table
    var runProjects: Table
    var runTools: Table
    var active: map<string, nat>
    var halted: set<(Kind, nat)>

    ghost function State(): Shared
      reads this
    {
      Shared(Tables(steerSenders, runTokens, subagentManagers, runProjects, runTools), halted)
    }

    constructor ()
      ensures State() == Shared(EMPTY, {}) && active == map[]
    {
      steerSenders, runTokens, subagentManagers, runProjects, runTools := map[], map[], map[], map[], map[];
      active, halted := map[], {};
    }

    method RegisterRunResources(id: string, generation: nat, steer: nat, token: nat, manager: nat, project: nat, tools: nat)
      modifies this`steerSenders, this`runTokens, this`subagentManagers, this`runProjects, this`runTools, this`halted
      ensures State().tables == Tables(
                old(steerSenders)[id := Resource(generation, steer)], old(runTokens)[id := Resource(generation, token)],
                old(subagentManagers)[id := Resource(generation, manager)], old(runProjects)[id := Resource(generation, project)],
                old(runTools)[id := Resource(generation, tools)])
      ensures halted == old(halted) + Displaced(Token, old(runTokens), id) + Displaced(Manager, old(subagentManagers), id)
      ensures steer == token == manager == project == tools ==>
                State() == Registered(old(State()), id, Resource(generation, steer), 5)
    {
      hide Registered;
      steerSenders := steerSenders[id := Resource(generation, steer)];
      Halt(Token, runTokens, id);
      runTokens := runTokens[id := Resource(generation, token)];
      Halt(Manager, subagentManagers, id);
      subagentManagers := subagentManagers[id := Resource(generation, manager)];
      runProjects := runProjects[id := Resource(generation, project)];
      runTools := runTools[id := Resource(generation, tools)];
      RegisteredUnfold(old(State()), id, Resource(generation, steer));
    }

    /** `RunResourcesGuard::drop`. */
    method DropGuard(id: string, generation: nat)
      modifies this`steerSenders, this`runTokens, this`subagentManagers, this`runProjects, this`runTools, this`halted
      ensures State() == Released(old(State()), id, generation, 5)
    {
      hide Released, Owns;
      var token, steer, project, tools, manager: Option<nat>;
      runTokens, token := RemoveRunResource(runTokens, id, generation);
      HaltValue(Token, token);
      steerSenders, steer := RemoveRunResource(steerSenders, id, generation);
      runProjects, project := RemoveRunResource(runProjects, id, generation);
      runTools, tools := RemoveRunResource(runTools, id, generation);
      subagentManagers, manager := RemoveRunResource(subagentManagers, id, generation);
      HaltValue(Manager, manager);
      ReleasedUnfold(old(State()), id, generation);
    }

    /** The tables' part of `cancel_run`: projects and tools go only for the active generation. */
    method CancelRun(id: string)
      modifies this`steerSenders, this`runTokens, this`subagentManagers, this`runProjects, this`runTools, this`halted
      ensures runTokens == old(runTokens) - {id} && steerSenders == old(steerSenders) - {id}
      ensures subagentManagers == old(subagentManagers) - {id}
      ensures runProjects == if id in active then Without(old(runProjects), id, active[id]) else old(runProjects)
      ensures runTools == if id in active then Without(old(runTools), id, active[id]) else old(runTools)
      ensures halted == old(halted) + Displaced(Token, old(runTokens), id) + Displaced(Manager, old(subagentManagers), id)
    {
      var tokens := runTokens;
      runTokens := runTokens - {id};
      Halt(Token, tokens, id);
      steerSenders := steerSenders - {id};
      if id in active {
        var generation := active[id];
        var project, tools: Option<nat>;
        runProjects, project := RemoveRunResource(runProjects, id, generation);
        runTools, tools := RemoveRunResource(runTools, id, generation);
      }
      Halt(Manager, subagentManagers, id);
      subagentManagers := subagentManagers - {id};
    }

    method HaltValue(kind: Kind, value: Option<nat>)
      requires Stoppable(kind)
      modifies this`halted
      ensures halted == old(halted) + Halting(kind, value)
    {
      if value.Some? { halted := halted + {(kind, value.value)}; }
    }

    /** Cancels or interrupts what a table holds for a request, if anything. */
    method Halt(kind: Kind, table: Table, id: string)
      modifies this`halted
      ensures halted == old(halted) + Displaced(kind, table, id)
    {
      if id in table { halted := halted + {(kind, table[id].value)}; }
    }

    /** The tables' part of `agent_cancel_all`; the drained tokens are cancelled one by one. */
    method CancelAll()
      modifies this`steerSenders, this`runTokens, this`subagentManagers, this`runProjects, this`runTools, this`halted
      ensures State().tables == EMPTY
      ensures halted == old(halted) + (set id | id in old(runTokens) :: (Token, old(runTokens)[id].value))
                                    + (set id | id in old(subagentManagers) :: (Manager, old(subagentManagers)[id].value))
    {
      var tokens, managers := runTokens, subagentManagers;
      runTokens := map[];
      HaltAll(Token, tokens);
      steerSenders, runProjects, runTools := map[], map[], map[];
      subagentManagers := map[];
      HaltAll(Manager, managers);
    }

    method HaltAll(kind: Kind, drained: Table)
      modifies this`halted
      ensures halted == old(halted) + set id | id in drained :: (kind, drained[id].value)
    {
      var left := drained.Keys;
      while left != {}
        invariant left <= drained.Keys
        invariant halted == old(halted) + set id | id in drained && id !in left :: (kind, drained[id].value)
        decreases left
      {
        var id :| id in left;
        halted := halted + {(kind, drained[id].value)};
        left := left - {id};
      }
    }
  }

  /** `remove_run_resource` on one table. */
  method RemoveRunResource(table: Table, id: string, generation: nat) returns (rest: Table, value: Option<nat>)
    ensures value == Held(table, id, generation) && rest == Without(table, id, generation)
  {
    if id in table && table[id].generation == generation {
      return table - {id}, Some(table[id].value);
    }
    return table, None;
  }

  /** What the entry of a request that is about to be replaced halts. */
  function Displaced(kind: Kind, table: Table, id: string): set<(Kind, nat)> {
    if id in table then {(kind, table[id].value)} else {}
  }

  lemma RegisteredUnfold(s: Shared, id: string, resource: Resource)
    ensures var t := s.tables;
            Registered(s, id, resource, 5) ==
            Shared(Tables(t.steer[id := resource], t.tokens[id := resource], t.managers[id := resource], t.projects[id := resource],
                          t.tools[id := resource]),
                   s.halted + Displaced(Token, t.tokens, id) + Displaced(Manager, t.managers, id))
  {
    var t := s.tables;
    assert Registered(s, id, resource, 1).tables == t.(steer := t.steer[id := resource]);
    assert Registered(s, id, resource, 2).tables == Registered(s, id, resource, 1).tables.(tokens := t.tokens[id := resource]);
    assert Registered(s, id, resource, 3).tables == Registered(s, id, resource, 2).tables.(managers := t.managers[id := resource]);
    assert Registered(s, id, resource, 1).halted == s.halted;
    assert Registered(s, id, resource, 2).halted == s.halted + Displaced(Token, t.tokens, id);
    assert Registered(s, id, resource, 3).halted == Registered(s, id, resource, 2).halted + Displaced(Manager, t.managers, id);
    assert Registered(s, id, resource, 4).halted == Registered(s, id, resource, 3).halted;
    assert Registered(s, id, resource, 5).halted == Registered(s, id, resource, 4).halted;
    assert Registered(s, id, resource, 4).tables == Registered(s, id, resource, 3).tables.(projects := t.projects[id := resource]);
    assert Registered(s, id, resource, 5).tables == Registered(s, id, resource, 4).tables.(tools := t.tools[id := resource]);
  }

  lemma ReleasedUnfold(s: Shared, id: string, generation: nat)
    ensures var t := s.tables;
            Released(s, id, generation, 5) ==
            Shared(Tables(Without(t.steer, id, generation), Without(t.tokens, id, generation), Without(t.managers, id, generation),
                          Without(t.projects, id, generation), Without(t.tools, id, generation)),
                   s.halted + Halting(Token, Held(t.tokens, id, generation)) + Halting(Manager, Held(t.managers, id, generation)))
  {
    var t := s.tables;
    ReleasedNext(s, id, generation, 0);
    ReleasedNext(s, id, generation, 1);
    ReleasedNext(s, id, generation, 2);
    ReleasedNext(s, id, generation, 3);
    ReleasedNext(s, id, generation, 4);
    hide Released, Without, Held;
    assert Released(s, id, generation, 4).halted == s.halted + Halting(Token, Held(t.tokens, id, generation));
  }

  lemma ReleasedNext(s: Shared, id: string, generation: nat, n: nat)
    requires n < 5
    ensures var before := Released(s, id, generation, n); var table := before.tables.At(DROP_ORDER[n]);
            Released(s, id, generation, n + 1)
            == Shared(before.tables.With(DROP_ORDER[n], Without(table, id, generation)),
                      before.halted + Halting(DROP_ORDER[n], Held(table, id, generation)))
  {
  }

  function Held(table: Table, id: string, generation: nat): Option<nat> {
    if Owns(table, id, generation) then Some(table[id].value) else None
  }

  function Without(table: Table, id: string, generation: nat): Table {
    if Owns(table, id, generation) then table - {id} else table
  }
}
