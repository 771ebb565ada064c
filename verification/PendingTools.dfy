/** The tool calls that await a reply, keyed by request and call. */
module PendingTools {
  import opened Wrappers

  const SEPARATOR := '\U{1F}'
  const HYPHEN := '-'

  datatype PendingTool = PendingTool(generation: nat, toolName: string, projectId: Option<string>)

  function Prefix(requestId: string): string { requestId + [SEPARATOR] }

  function ToolKey(requestId: string, callId: string): string { Prefix(requestId) + callId }

  predicate Dropped(key: string, tool: PendingTool, requestId: string, generation: Option<nat>) {
    Prefix(requestId) <= key && (generation.None? || generation.value == tool.generation)
  }

  /** What `drop_pending_tools` keeps. */
  function Retained(pending: map<string, PendingTool>, requestId: string, generation: Option<nat>): map<string, PendingTool> {
    map key | key in pending && !Dropped(key, pending[key], requestId, generation) :: pending[key]
  }

  /** What `remove_pending_tool` keeps. */
  function Removed(pending: map<string, PendingTool>, key: string, generation: nat): map<string, PendingTool> {
    if key in pending && pending[key].generation == generation then pending - {key} else pending
  }

  class Registry {
    var pending: map<string, PendingTool>

    constructor ()
      ensures pending == map[]
    {
      pending := map[];
    }

    method RemovePendingTool(key: string, generation: nat)
      modifies this
      ensures pending == Removed(old(pending), key, generation)
    {
      if key in pending && pending[key].generation == generation { pending := pending - {key}; }
    }

    /** `drop_pending_tools`: every key is tried, in whatever order the table yields them. */
    method DropPendingTools(requestId: string, generation: Option<nat>)
      modifies this
      ensures pending == Retained(old(pending), requestId, generation)
    {
      var left := pending.Keys;
      while left != {}
        invariant left <= old(pending).Keys
        invariant pending == map key | key in old(pending) && (key in left || !Dropped(key, old(pending)[key], requestId, generation))
                               :: old(pending)[key]
        decreases left
      {
        var key :| key in left;
        if Dropped(key, pending[key], requestId, generation) { pending := pending - {key}; }
        left := left - {key};
      }
    }
  }

  // ---- keys ----

  /** The prefix finds the calls of the request, and otherwise only keys in which one name goes on after a separator. */
  lemma PrefixExact(requestId: string, other: string, callId: string)
    ensures Prefix(requestId) <= ToolKey(other, callId) <==>
            || requestId == other
            || Prefix(requestId) <= other
            || (Prefix(other) <= requestId && Prefix(requestId[|other| + 1..]) <= callId)
  {
    var prefix, key := Prefix(requestId), ToolKey(other, callId);
    assert forall i :: 0 <= i < |other| ==> key[i] == other[i];
    assert forall i :: |other| < i < |key| ==> key[i] == callId[i - |other| - 1];
    assert key[|other|] == SEPARATOR && prefix[|requestId|] == SEPARATOR;
    if |requestId| == |other| {
      assert prefix <= key <==> requestId == other;
    } else if |requestId| < |other| {
      assert key[..|prefix|] == other[..|prefix|];
    } else {
      assert requestId == requestId[..|other| + 1] + requestId[|other| + 1..];
      assert prefix == requestId[..|other| + 1] + Prefix(requestId[|other| + 1..]);
      assert key == Prefix(other) + callId;
      SplitPrefix(requestId[..|other| + 1], Prefix(requestId[|other| + 1..]), Prefix(other), callId);
    }
  }

  lemma SplitPrefix(a: string, b: string, c: string, d: string)
    requires |a| == |c|
    ensures a + b <= c + d <==> a == c && b <= d
  {
    if a + b <= c + d {
      assert (c + d)[..|a + b|] == a + b;
      assert a == (a + b)[..|a|] == (c + d)[..|a|] == c;
      assert b == (a + b)[|a|..] == (c + d)[|a|..|a + b|] == d[..|b|];
    }
  }

  /** A call of some run: the reply's name carries the run's generation and a sequence number. */
  datatype Call = Call(generation: nat, sequence: nat, providerCallId: string)

  function CallKey(requestId: string, call: Call): string {
    ToolKey(requestId, ToolReplyId(call.generation, call.sequence, call.providerCallId))
  }

  /** The key of the longer name goes on from the key of the other call, inside what the provider calls it. */
  ghost predicate Continues(requestId: string, call: Call, longer: string, other: Call) {
    exists front :: longer == CallKey(requestId, call.(providerCallId := front))
                    && call.providerCallId == front + [SEPARATOR] + ToolReplyId(other.generation, other.sequence, other.providerCallId)
  }

  /** Two calls share a key exactly when they are the same call, or one's name of the request continues the other's key. */
  lemma KeysExact(r: string, c: Call, s: string, d: Call)
    ensures CallKey(r, c) == CallKey(s, d) <==> (r == s && c == d) || Continues(r, c, s, d) || Continues(s, d, r, c)
  {
    hide ToolReplyId;
    if CallKey(r, c) == CallKey(s, d) {
      if |r| == |s| {
        SplitPrefix(Prefix(r), ReplyOf(c), Prefix(s), ReplyOf(d));
        assert CallKey(r, c) <= CallKey(s, d);
        assert r == Prefix(r)[..|r|] == Prefix(s)[..|s|] == s;
        assert ReplyOf(c) == ReplyOf(d);
        ToolReplyIdInjective(c.generation, c.sequence, c.providerCallId, d.generation, d.sequence, d.providerCallId);
      } else if |r| < |s| {
        LongerContinues(r, c, s, d);
      } else {
        LongerContinues(s, d, r, c);
      }
    }
    if Continues(r, c, s, d) { ContinuesCollides(r, c, s, d); }
    if Continues(s, d, r, c) { ContinuesCollides(s, d, r, c); }
  }

  function ReplyOf(call: Call): string { ToolReplyId(call.generation, call.sequence, call.providerCallId) }

  lemma ContinuesCollides(r: string, c: Call, s: string, d: Call)
    requires Continues(r, c, s, d)
    ensures CallKey(r, c) == CallKey(s, d)
  {
    hide ToolReplyId;
    var front :| s == CallKey(r, c.(providerCallId := front)) && c.providerCallId == front + [SEPARATOR] + ReplyOf(d);
    ReplyParts(c.generation, c.sequence, c.providerCallId);
    ReplyParts(c.generation, c.sequence, front);
    var head := ReplyHead(c.generation, c.sequence);
    assert CallKey(r, c) == Prefix(r) + (head + (front + [SEPARATOR] + ReplyOf(d)));
    assert CallKey(s, d) == Prefix(r) + (head + front) + [SEPARATOR] + ReplyOf(d);
  }

  /** Everything in a reply's name before what the provider calls it. */
  function ReplyHead(generation: nat, sequence: nat): string { ToolReplyId(generation, sequence, "") }

  lemma ReplyParts(generation: nat, sequence: nat, providerCallId: string)
    ensures ToolReplyId(generation, sequence, providerCallId) == ReplyHead(generation, sequence) + providerCallId
    ensures SEPARATOR !in ReplyHead(generation, sequence)
  {
    var a, b := Decimal(generation), Decimal(sequence);
    assert "tool-" + (a + [HYPHEN] + (b + [HYPHEN] + providerCallId)) == "tool-" + (a + [HYPHEN] + (b + [HYPHEN] + "")) + providerCallId;
    assert SEPARATOR !in a && SEPARATOR !in b;
  }

  lemma LongerContinues(r: string, c: Call, s: string, d: Call)
    requires |r| < |s| && CallKey(r, c) == CallKey(s, d)
    ensures Continues(r, c, s, d)
  {
    hide ToolReplyId;
    var key, head := CallKey(r, c), ReplyHead(c.generation, c.sequence);
    ReplyParts(c.generation, c.sequence, c.providerCallId);
    assert key == Prefix(r) + head + c.providerCallId;
    assert key[|s|] == SEPARATOR && key[..|s|] == s && key[|s| + 1..] == ReplyOf(d);
    var start := |r| + 1 + |head|;
    assert forall i :: |r| < i < start ==> key[i] == head[i - |r| - 1];
    assert |s| >= start;
    assert key[start..] == c.providerCallId;
    var front := c.providerCallId[..|s| - start];
    ReplyParts(c.generation, c.sequence, front);
    assert s == key[..start] + key[start..|s|] == Prefix(r) + head + front;
    assert c.providerCallId == front + key[|s|..|s| + 1] + key[|s| + 1..];
  }

  // ---- runs ----

  /** The requests that have begun, by generation, and the table. */
  datatype World = World(requests: map<nat, string>, pending: map<string, PendingTool>)

  const INITIAL := World(map[], map[])

  datatype Action =
    | Begin(generation: nat, requestId: string)
    | Ask(call: Call, toolName: string, projectId: Option<string>)
    | Reply(requestId: string, callId: string)
    | Abandon(call: Call)
    | EndRun(generation: nat)
    | CancelAll

  /** Generations are drawn from one counter; a run asks and gives up only its own calls. */
  ghost predicate Enabled(w: World, a: Action) {
    match a
    case Begin(g, _) => g !in w.requests
    case Ask(call, _, _) => call.generation in w.requests
    case Abandon(call) => call.generation in w.requests
    case EndRun(g) => g in w.requests
    case _ => true
  }

  function Step(w: World, a: Action): World
    requires Enabled(w, a)
  {
    match a
    case Begin(g, requestId) => w.(requests := w.requests[g := requestId])
    case Ask(call, toolName, projectId) =>
      w.(pending := w.pending[CallKey(w.requests[call.generation], call) := PendingTool(call.generation, toolName, projectId)])
    case Reply(requestId, callId) => w.(pending := w.pending - {ToolKey(requestId, callId)})
    case Abandon(call) => w.(pending := Removed(w.pending, CallKey(w.requests[call.generation], call), call.generation))
    case EndRun(g) => w.(pending := Retained(w.pending, w.requests[g], Some(g)))
    case CancelAll => w.(pending := map[])
  }

  ghost function Execute(w: World, actions: seq<Action>): World {
    if actions == [] then w
    else
      var v := Execute(w, actions[..|actions| - 1]);
      var a := actions[|actions| - 1];
      if Enabled(v, a) then Step(v, a) else v
  }

  /** Every pending call is filed under a key of its own run. */
  ghost predicate OwnKeys(w: World) {
    forall key :: key in w.pending ==> FiledByRun(w, key)
  }

  ghost predicate FiledByRun(w: World, key: string)
    requires key in w.pending
  {
    w.pending[key].generation in w.requests && Prefix(w.requests[w.pending[key].generation]) <= key
  }

  lemma StepOwnKeys(w: World, a: Action)
    requires OwnKeys(w) && Enabled(w, a)
    ensures OwnKeys(Step(w, a))
  {
    var next := Step(w, a);
    forall key | key in next.pending ensures FiledByRun(next, key) {
      assert key in w.pending ==> FiledByRun(w, key);
    }
  }

  lemma {:induction false} AlwaysOwnKeys(w: World, actions: seq<Action>)
    requires OwnKeys(w)
    ensures OwnKeys(Execute(w, actions))
  {
    hide OwnKeys;
    if actions != [] {
      var before := actions[..|actions| - 1];
      AlwaysOwnKeys(w, before);
      if Enabled(Execute(w, before), actions[|actions| - 1]) {
        StepOwnKeys(Execute(w, before), actions[|actions| - 1]);
      }
    }
  }

  /** In every run, ending a run drops exactly the calls of that run, whatever the requests are called. */
  lemma EndDropsOwn(actions: seq<Action>, g: nat)
    requires g in Execute(INITIAL, actions).requests
    ensures var w := Execute(INITIAL, actions);
            Step(w, EndRun(g)).pending == map key | key in w.pending && w.pending[key].generation != g :: w.pending[key]
  {
    var w := Execute(INITIAL, actions);
    AlwaysOwnKeys(INITIAL, actions);
    assert forall key :: key in w.pending ==> FiledByRun(w, key);
  }

  /** A reply takes out what its key names, a call that is given up only its own entry, a cancel of all everything. */
  lemma LeavesExactly(w: World, requestId: string, callId: string, call: Call)
    requires call.generation in w.requests
    ensures Step(w, Reply(requestId, callId)).pending
            == map key | key in w.pending && key != requestId + ['\U{1F}'] + callId :: w.pending[key]
    ensures Step(w, Abandon(call)).pending
            == map key | key in w.pending && !(key == CallKey(w.requests[call.generation], call) && w.pending[key].generation == call.generation)
                 :: w.pending[key]
    ensures Step(w, CancelAll).pending == map[]
  {
  }

  /** In every run, a call of a run that has begun waits under its own key from the moment it is made. */
  lemma AskedWaits(actions: seq<Action>, g: nat, requestId: string, call: Call, toolName: string, projectId: Option<string>)
    requires g !in Execute(INITIAL, actions).requests && call.generation == g
    ensures var w := Execute(INITIAL, actions + [Begin(g, requestId)] + [Ask(call, toolName, projectId)]);
      && g in w.requests && w.requests[g] == requestId
      && CallKey(requestId, call) in w.pending && w.pending[CallKey(requestId, call)] == PendingTool(g, toolName, projectId)
  {
    hide ToolReplyId;
    var begun := actions + [Begin(g, requestId)];
    assert begun[..|begun| - 1] == actions;
    var asked := begun + [Ask(call, toolName, projectId)];
    assert asked[..|asked| - 1] == begun;
  }

  ghost predicate NoneOf(w: World, g: nat) {
    forall key :: key in w.pending ==> w.pending[key].generation != g
  }

  lemma OthersStay(w: World, a: Action, g: nat)
    requires Enabled(w, a) && (a.Ask? ==> a.call.generation != g) && NoneOf(w, g)
    ensures NoneOf(Step(w, a), g)
  {
  }

  lemma {:induction false} NoneLater(w: World, g: nat, later: seq<Action>)
    requires NoneOf(w, g) && forall i :: 0 <= i < |later| && later[i].Ask? ==> later[i].call.generation != g
    ensures NoneOf(Execute(w, later), g)
  {
    hide NoneOf;
    if later != [] {
      var front, last := later[..|later| - 1], later[|later| - 1];
      NoneLater(w, g, front);
      if Enabled(Execute(w, front), last) { OthersStay(Execute(w, front), last, g); }
    }
  }

  /** Once a run has ended and asks nothing more, none of its calls is ever pending again. */
  lemma EndIsFinal(actions: seq<Action>, g: nat, later: seq<Action>)
    requires g in Execute(INITIAL, actions).requests
    requires forall i :: 0 <= i < |later| && later[i].Ask? ==> later[i].call.generation != g
    ensures NoneOf(Execute(Step(Execute(INITIAL, actions), EndRun(g)), later), g)
  {
    EndDropsOwn(actions, g);
    NoneLater(Step(Execute(INITIAL, actions), EndRun(g)), g, later);
  }

  /** The action that would take a call out of the table, or put another in its place. */
  ghost predicate Touches(w: World, a: Action, key: string, generation: nat)
    requires Enabled(w, a)
  {
    match a
    case Begin(_, _) => false
    case Ask(call, _, _) => CallKey(w.requests[call.generation], call) == key
    case Reply(requestId, callId) => ToolKey(requestId, callId) == key
    case Abandon(call) => CallKey(w.requests[call.generation], call) == key && call.generation == generation
    case EndRun(g) => g == generation
    case CancelAll => true
  }

  /** A call waits until its reply, its own end, its run's end, a cancel of all, or another call under the same key. */
  lemma {:induction false} CallWaits(w: World, key: string, actions: seq<Action>)
    requires OwnKeys(w) && key in w.pending
    requires forall i :: 0 <= i < |actions| && Enabled(Execute(w, actions[..i]), actions[i])
               ==> !Touches(Execute(w, actions[..i]), actions[i], key, w.pending[key].generation)
    ensures key in Execute(w, actions).pending && Execute(w, actions).pending[key] == w.pending[key]
  {
    if actions != [] {
      var before, last := actions[..|actions| - 1], actions[|actions| - 1];
      forall i | 0 <= i < |before| ensures before[..i] == actions[..i] && before[i] == actions[i] {}
      CallWaits(w, key, before);
      AlwaysOwnKeys(w, before);
      assert FiledByRun(w, key);
    }
  }

  // ---- names ----

  lemma ToolKeyInjective(r: string, c: string, s: string, d: string)
    requires SEPARATOR !in r && SEPARATOR !in s && ToolKey(r, c) == ToolKey(s, d)
    ensures r == s && c == d
  {
    CutOnce(r, c, s, d, SEPARATOR);
  }

  /** The part before the first separator, and the part after it, are determined. */
  lemma CutOnce(left: string, right: string, left': string, right': string, sep: char)
    requires sep !in left && sep !in left' && left + [sep] + right == left' + [sep] + right'
    ensures left == left' && right == right'
  {
    var whole := left + [sep] + right;
    assert forall i :: 0 <= i < |left| ==> whole[i] == left[i];
    assert forall i :: 0 <= i < |left'| ==> whole[i] == left'[i];
    assert whole[|left|] == sep && whole[|left'|] == sep;
    assert left == whole[..|left|] && right == whole[|left| + 1..];
  }

  function Decimal(n: nat): (r: string)
    ensures r != [] && forall i :: 0 <= i < |r| ==> '0' <= r[i] <= '9'
  {
    var digit := ('0' as int + n % 10) as char;
    if n < 10 then [digit] else Decimal(n / 10) + [digit]
  }

  function Number(s: string): int {
    if s == [] then 0 else 10 * Number(s[..|s| - 1]) + (s[|s| - 1] as int - '0' as int)
  }

  lemma {:induction false} NumberDecimal(n: nat)
    ensures Number(Decimal(n)) == n
  {
    if n >= 10 {
      NumberDecimal(n / 10);
      assert Decimal(n)[..|Decimal(n)| - 1] == Decimal(n / 10);
    } else {
      assert Decimal(n)[..0] == [];
    }
  }

  /** `tool_reply_id`. */
  function ToolReplyId(generation: nat, sequence: nat, providerCallId: string): string {
    "tool-" + (Decimal(generation) + [HYPHEN] + (Decimal(sequence) + [HYPHEN] + providerCallId))
  }

  /** Replies to different calls have different names, whatever the provider calls them. */
  lemma ToolReplyIdInjective(g: nat, s: nat, p: string, h: nat, t: nat, q: string)
    requires ToolReplyId(g, s, p) == ToolReplyId(h, t, q)
    ensures g == h && s == t && p == q
  {
    var rest, rest' := Decimal(s) + [HYPHEN] + p, Decimal(t) + [HYPHEN] + q;
    assert ToolReplyId(g, s, p)[5..] == Decimal(g) + [HYPHEN] + rest;
    assert ToolReplyId(h, t, q)[5..] == Decimal(h) + [HYPHEN] + rest';
    CutOnce(Decimal(g), rest, Decimal(h), rest', HYPHEN);
    CutOnce(Decimal(s), p, Decimal(t), q, HYPHEN);
    NumberDecimal(g);
    NumberDecimal(h);
    NumberDecimal(s);
    NumberDecimal(t);
  }
}
