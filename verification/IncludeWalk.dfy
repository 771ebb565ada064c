/** Expanding the always-include patterns of a policy into project files. */
module IncludeWalk {
  import opened Wrappers
  import opened Text
  import opened Glob
  import opened FileTree
  import opened CheckpointPolicy

  type Tree = Node<string>

  const MAX_ENTRIES := 100_000
  const MAX_DEPTH := 64

  datatype Failure =
    | Cancelled
    | TooManyEntries
    | TooDeep
    | NotUnicode
    | UnsafePath(path: Path)
    | SymbolicLink(path: Path)
    | BothIncludedAndIgnored(path: Path)

  predicate IsProtected(name: string) {
    Fold(name) in {".git", ".oleafly", "node_modules"}
  }

  /** `portable_relative` refuses components with control characters. */
  predicate IsUnsafe(path: Path) {
    exists i :: 0 <= i < |path| && HasControl(path[i])
  }

  /** A stop request may land at any poll, once a cancellation token is given. */
  method Poll(armed: bool) returns (stop: bool)
    ensures stop ==> armed
  {
    stop := *;
    stop := stop && armed;
  }

  // ---- what the walks should find ----

  /** A regular file reached from `node` through unprotected components only. */
  ghost predicate OpenFile(node: Tree, path: Path) {
    if path == [] then node.File?
    else
      && node.Dir? && !IsProtected(path[0])
      && exists i :: 0 <= i < |node.entries| && OpenVia(node.entries[i], path)
  }

  ghost predicate OpenVia(entry: Entry<string>, path: Path)
    requires path != []
  {
    entry.name == Some(path[0]) && OpenFile(entry.node, path[1..])
  }

  /** The file at `path` is what the remaining pattern segments select below `node`. */
  ghost predicate Hit(node: Tree, segments: seq<string>, wild: bool, path: Path) {
    if segments == [] then (wild ==> path == []) && OpenFile(node, path)
    else
      && path != [] && node.Dir? && !IsProtected(path[0]) && Matches(segments[0], path[0])
      && exists i :: 0 <= i < |node.entries| && HitVia(node.entries[i], segments, wild, path)
  }

  ghost predicate HitVia(entry: Entry<string>, segments: seq<string>, wild: bool, path: Path)
    requires path != [] && segments != []
  {
    entry.name == Some(path[0]) && Hit(entry.node, segments[1..], wild, path[1..])
  }

  /** `path` lies in `here`, and what follows is selected through `entry`. */
  ghost predicate OpenUnder(here: Path, entry: Entry<string>, path: Path) {
    here < path && !IsProtected(path[|here|]) && OpenVia(entry, path[|here|..])
  }

  ghost predicate HitUnder(here: Path, entry: Entry<string>, segments: seq<string>, wild: bool, path: Path)
    requires segments != []
  {
    && here < path && !IsProtected(path[|here|]) && Matches(segments[0], path[|here|])
    && HitVia(entry, segments, wild, path[|here|..])
  }

  lemma {:induction false} HitSegments(node: Tree, segments: seq<string>, wild: bool, path: Path)
    ensures Hit(node, segments, wild, path) <==>
            && OpenFile(node, path)
            && (if wild then |path| == |segments| else |path| >= |segments|)
            && forall i :: 0 <= i < |segments| ==> Matches(segments[i], path[i])
    decreases |segments|
  {
    if segments != [] && path != [] && node.Dir? {
      forall i | 0 <= i < |node.entries|
        ensures HitVia(node.entries[i], segments, wild, path) <==>
                && OpenVia(node.entries[i], path)
                && (if wild then |path| == |segments| else |path| >= |segments|)
                && forall j :: 1 <= j < |segments| ==> Matches(segments[j], path[j])
      {
        HitSegments(node.entries[i].node, segments[1..], wild, path[1..]);
        ShiftSegments(segments, path);
      }
    }
  }

  lemma ShiftSegments(segments: seq<string>, path: Path)
    requires segments != [] && path != []
    ensures |path| >= |segments| ==>
              ((forall j :: 0 <= j < |segments[1..]| ==> Matches(segments[1..][j], path[1..][j])) <==>
               (forall j :: 1 <= j < |segments| ==> Matches(segments[j], path[j])))
  {
    if |path| >= |segments| && forall j :: 0 <= j < |segments[1..]| ==> Matches(segments[1..][j], path[1..][j]) {
      forall j | 1 <= j < |segments| ensures Matches(segments[j], path[j]) {
        assert segments[1..][j - 1] == segments[j] && path[1..][j - 1] == path[j];
      }
    }
  }

  /** What one pattern selects is what the policy's own pattern test accepts, among the open files. */
  lemma HitIsPatternMatch(root: Tree, pattern: string, path: Path)
    ensures Hit(root, Split(pattern, '/'), HasWildcard(pattern), path) <==>
            OpenFile(root, path) && PatternMatches(pattern, path)
  {
    HitSegments(root, Split(pattern, '/'), HasWildcard(pattern), path);
    PatternMatchesSegments(pattern, path);
  }

  // ---- what can stop a walk, and how many entries it inspects ----

  ghost predicate FileObstacle(policy: Policy, path: Path, e: Failure) {
    || (IsUnsafe(path) && e == UnsafePath(path))
    || (!IsUnsafe(path) && policy.IsIgnored(path) && e == BothIncludedAndIgnored(path))
  }

  ghost predicate LinkObstacle(path: Path, e: Failure) {
    e == if IsUnsafe(path) then UnsafePath(path) else SymbolicLink(path)
  }

  ghost predicate SubtreeObstacle(policy: Policy, node: Tree, here: Path, depth: nat, e: Failure)
    requires node.Dir?
    decreases node
  {
    || (depth > MAX_DEPTH && e == TooDeep)
    || exists i :: 0 <= i < |node.entries| && SubtreeEntryObstacle(policy, node.entries[i], here, depth, e)
  }

  ghost predicate SubtreeEntryObstacle(policy: Policy, entry: Entry<string>, here: Path, depth: nat, e: Failure)
    decreases entry
  {
    match entry.name
    case None => e == NotUnicode
    case Some(name) =>
      && !IsProtected(name)
      && match entry.node
         case Link => LinkObstacle(here + [name], e)
         case Dir(_) => SubtreeObstacle(policy, entry.node, here + [name], depth + 1, e)
         case File(_) => FileObstacle(policy, here + [name], e)
         case Special => false
  }

  ghost predicate PatternObstacle(policy: Policy, node: Tree, segments: seq<string>, index: nat, wild: bool, here: Path, e: Failure)
    requires node.Dir? && index < |segments|
    decreases node
  {
    || (index > MAX_DEPTH && e == TooDeep)
    || exists i :: 0 <= i < |node.entries| && PatternEntryObstacle(policy, node.entries[i], segments, index, wild, here, e)
  }

  ghost predicate PatternEntryObstacle(policy: Policy, entry: Entry<string>, segments: seq<string>, index: nat, wild: bool, here: Path, e: Failure)
    requires index < |segments|
    decreases entry
  {
    && entry.name.Some? && !IsProtected(entry.name.value) && Matches(segments[index], entry.name.value)
    && var path := here + [entry.name.value];
       if IsUnsafe(path) then e == UnsafePath(path)
       else if entry.node.Link? then e == SymbolicLink(path)
       else if index + 1 < |segments| then
         entry.node.Dir? && PatternObstacle(policy, entry.node, segments, index + 1, wild, path, e)
       else if entry.node.File? then FileObstacle(policy, path, e)
       else entry.node.Dir? && !wild && SubtreeObstacle(policy, entry.node, path, 0, e)
  }

  /** Entries inspected below the first `count` entries of a directory. */
  ghost function SubtreeVisits(node: Tree, count: nat): nat
    requires node.Dir? && count <= |node.entries|
    decreases node, count
  {
    if count == 0 then 0
    else SubtreeVisits(node, count - 1) + 1 + SubtreeEntryVisits(node.entries[count - 1])
  }

  ghost function SubtreeEntryVisits(entry: Entry<string>): nat
    decreases entry
  {
    if entry.name.Some? && !IsProtected(entry.name.value) && entry.node.Dir?
    then SubtreeVisits(entry.node, |entry.node.entries|) else 0
  }

  ghost function PatternVisits(node: Tree, segments: seq<string>, index: nat, wild: bool, count: nat): nat
    requires node.Dir? && index < |segments| && count <= |node.entries|
    decreases node, count
  {
    if count == 0 then 0
    else PatternVisits(node, segments, index, wild, count - 1) + 1
         + PatternEntryVisits(node.entries[count - 1], segments, index, wild)
  }

  ghost function PatternEntryVisits(entry: Entry<string>, segments: seq<string>, index: nat, wild: bool): nat
    requires index < |segments|
    decreases entry
  {
    if !(entry.name.Some? && !IsProtected(entry.name.value) && Matches(segments[index], entry.name.value)
         && !HasControl(entry.name.value) && entry.node.Dir?)
    then 0
    else if index + 1 < |segments| then PatternVisits(entry.node, segments, index + 1, wild, |entry.node.entries|)
    else if wild then 0
    else SubtreeVisits(entry.node, |entry.node.entries|)
  }

  // ---- the stack of directories still to be listed ----

  datatype Pending = Pending(node: Tree, here: Path, depth: nat)

  ghost predicate Listable(pending: seq<Pending>) {
    forall i :: 0 <= i < |pending| ==> pending[i].node.Dir?
  }

  ghost predicate Owed(pending: seq<Pending>, path: Path) {
    exists i :: 0 <= i < |pending| && OwedBy(pending[i], path)
  }

  ghost predicate OwedBy(item: Pending, path: Path) {
    item.here <= path && OpenFile(item.node, path[|item.here|..])
  }

  ghost predicate OwedObstacle(policy: Policy, pending: seq<Pending>, e: Failure)
    requires Listable(pending)
  {
    exists i :: 0 <= i < |pending| && SubtreeObstacle(policy, pending[i].node, pending[i].here, pending[i].depth, e)
  }

  ghost function OwedVisits(pending: seq<Pending>): nat
    requires Listable(pending)
  {
    if pending == [] then 0
    else OwedVisits(pending[..|pending| - 1])
         + SubtreeVisits(pending[|pending| - 1].node, |pending[|pending| - 1].node.entries|)
  }

  lemma Pushed(policy: Policy, pending: seq<Pending>, item: Pending)
    requires Listable(pending) && item.node.Dir?
    ensures Listable(pending + [item])
    ensures forall path :: Owed(pending + [item], path) <==> Owed(pending, path) || OwedBy(item, path)
    ensures forall e :: OwedObstacle(policy, pending + [item], e) <==>
              OwedObstacle(policy, pending, e) || SubtreeObstacle(policy, item.node, item.here, item.depth, e)
    ensures OwedVisits(pending + [item]) == OwedVisits(pending) + SubtreeVisits(item.node, |item.node.entries|)
  {
    var both := pending + [item];
    assert both[..|both| - 1] == pending;
    assert both[|pending|] == item;
    forall path ensures Owed(both, path) <==> Owed(pending, path) || OwedBy(item, path) {
      if Owed(pending, path) {
        var i :| 0 <= i < |pending| && OwedBy(pending[i], path);
        assert both[i] == pending[i];
      }
    }
    forall e
      ensures OwedObstacle(policy, both, e) <==>
              OwedObstacle(policy, pending, e) || SubtreeObstacle(policy, item.node, item.here, item.depth, e)
    {
      if OwedObstacle(policy, pending, e) {
        var i :| 0 <= i < |pending| && SubtreeObstacle(policy, pending[i].node, pending[i].here, pending[i].depth, e);
        assert both[i] == pending[i];
      }
    }
  }

  /** A directory owes what its entries owe. */
  lemma OwedByEntries(item: Pending, path: Path)
    requires item.node.Dir?
    ensures OwedBy(item, path) <==>
            exists i :: 0 <= i < |item.node.entries| && OpenUnder(item.here, item.node.entries[i], path)
  {
    if OwedBy(item, path) {
      var rest := path[|item.here|..];
      var i :| 0 <= i < |item.node.entries| && OpenVia(item.node.entries[i], rest);
      assert OpenUnder(item.here, item.node.entries[i], path);
    }
    if exists i :: 0 <= i < |item.node.entries| && OpenUnder(item.here, item.node.entries[i], path) {
      var i :| 0 <= i < |item.node.entries| && OpenUnder(item.here, item.node.entries[i], path);
      assert OpenVia(item.node.entries[i], path[|item.here|..]);
    }
  }

  /** What an entry with an unprotected name owes, by the kind of its node. */
  lemma OpenUnderKinds(here: Path, entry: Entry<string>, path: Path)
    ensures !(entry.name.Some? && !IsProtected(entry.name.value)) ==> !OpenUnder(here, entry, path)
    ensures entry.name.Some? && !IsProtected(entry.name.value) ==>
              (OpenUnder(here, entry, path) <==>
               here + [entry.name.value] <= path && OpenFile(entry.node, path[|here| + 1..]))
    ensures entry.name.Some? && !IsProtected(entry.name.value) && entry.node.File? ==>
              (OpenUnder(here, entry, path) <==> path == here + [entry.name.value])
    ensures entry.node.Link? || entry.node.Special? ==> !OpenUnder(here, entry, path)
  {
    if here < path { assert path[|here|..][1..] == path[|here| + 1..]; }
    if entry.name.Some? {
      var one := here + [entry.name.value];
      if one <= path { assert path[|here|] == one[|here|]; assert here <= path; }
      if here < path && path[|here|] == entry.name.value { assert path[..|here| + 1] == one; }
    }
  }

  ghost predicate EntriesOwe(item: Pending, from: nat, path: Path)
    requires item.node.Dir?
  {
    exists i :: from <= i < |item.node.entries| && OpenUnder(item.here, item.node.entries[i], path)
  }

  ghost predicate EntriesObstruct(policy: Policy, item: Pending, from: nat, e: Failure)
    requires item.node.Dir?
  {
    exists i :: from <= i < |item.node.entries| && SubtreeEntryObstacle(policy, item.node.entries[i], item.here, item.depth, e)
  }

  // ---- the walks ----

  method IncludePolicyFile(path: Path, policy: Policy, included0: set<Path>) returns (included: set<Path>, failure: Option<Failure>)
    ensures failure.None? ==> included == included0 + {path} && forall e :: !FileObstacle(policy, path, e)
    ensures failure.Some? ==> FileObstacle(policy, path, failure.value)
  {
    included := included0;
    if IsUnsafe(path) { return included, Some(UnsafePath(path)); }
    var ignored := CheckIgnored(policy, path);
    if ignored { return included, Some(BothIncludedAndIgnored(path)); }
    return included + {path}, None;
  }

  /** One listed entry: a directory is left for later, a file is included, a link is refused. */
  method ListEntry(item: Pending, entry: Entry<string>, policy: Policy, included0: set<Path>)
    returns (included: set<Path>, later: Option<Pending>, failure: Option<Failure>)
    ensures later.Some? ==> later.value.node.Dir? && later.value.node == entry.node
    ensures failure.None? ==>
              && (forall path :: (path in included || (later.Some? && OwedBy(later.value, path)))
                            <==> (path in included0 || OpenUnder(item.here, entry, path)))
              && (forall e :: SubtreeEntryObstacle(policy, entry, item.here, item.depth, e)
                         <==> (later.Some? && SubtreeObstacle(policy, later.value.node, later.value.here, later.value.depth, e)))
              && SubtreeEntryVisits(entry)
                 == (if later.Some? then SubtreeVisits(later.value.node, |later.value.node.entries|) else 0)
    ensures failure.Some? ==> SubtreeEntryObstacle(policy, entry, item.here, item.depth, failure.value)
  {
    included, later, failure := included0, None, None;
    forall path { OpenUnderKinds(item.here, entry, path); }
    if entry.name.None? { return included, later, Some(NotUnicode); }
    var name := entry.name.value;
    if IsProtected(name) { return; }
    var path := item.here + [name];
    if entry.node.Link? {
      failure := Some(if IsUnsafe(path) then UnsafePath(path) else SymbolicLink(path));
    } else if entry.node.Dir? {
      later := Some(Pending(entry.node, path, item.depth + 1));
    } else if entry.node.File? {
      included, failure := IncludePolicyFile(path, policy, included);
    }
  }

  /** Two moments of a walk with the same files, obstacles and entries found or still to be found. */
  ghost predicate SameAccount(policy: Policy, included: set<Path>, pending: seq<Pending>, inspected: nat,
                              included0: set<Path>, pending0: seq<Pending>, inspected0: nat)
    requires Listable(pending) && Listable(pending0)
  {
    && (forall path :: (path in included || Owed(pending, path)) <==> (path in included0 || Owed(pending0, path)))
    && (forall e :: OwedObstacle(policy, pending, e) <==> OwedObstacle(policy, pending0, e))
    && inspected + OwedVisits(pending) == inspected0 + OwedVisits(pending0)
  }

  /** All entries of the directory on top of the stack, in listing order. */
  method ListDirectory(pending0: seq<Pending>, policy: Policy, included0: set<Path>, inspected0: nat)
    returns (included: set<Path>, pending: seq<Pending>, inspected: nat, failure: Option<Failure>)
    requires Listable(pending0) && inspected0 <= MAX_ENTRIES && pending0 != []
    requires pending0[|pending0| - 1].depth <= MAX_DEPTH
    ensures Listable(pending)
    ensures failure.None? ==>
              && SameAccount(policy, included, pending, inspected, included0, pending0, inspected0)
              && inspected <= MAX_ENTRIES
              && |pending| - |pending0| < inspected - inspected0
    ensures failure.Some? ==>
              || (failure.value == TooManyEntries && inspected0 + OwedVisits(pending0) > MAX_ENTRIES)
              || OwedObstacle(policy, pending0, failure.value)
  {
    hide OpenFile, SubtreeObstacle, SubtreeVisits;
    var item := pending0[|pending0| - 1];
    Pushed(policy, pending0[..|pending0| - 1], item);
    assert pending0[..|pending0| - 1] + [item] == pending0;
    included, pending, inspected, failure := included0, pending0[..|pending0| - 1], inspected0, None;
    var count := |item.node.entries|;
    VisitsStart(item.node);
    forall path ensures OwedBy(item, path) <==> EntriesOwe(item, 0, path) { OwedByEntries(item, path); }
    forall e ensures SubtreeObstacle(policy, item.node, item.here, item.depth, e) <==> EntriesObstruct(policy, item, 0, e) {
      ObstacleByEntries(policy, item, e);
    }
    for i := 0 to count
      invariant failure.None? && Listable(pending) && inspected == inspected0 + i <= MAX_ENTRIES
      invariant forall path :: (path in included || Owed(pending, path) || EntriesOwe(item, i, path))
                          <==> (path in included0 || Owed(pending0, path))
      invariant forall e :: (OwedObstacle(policy, pending, e) || EntriesObstruct(policy, item, i, e))
                       <==> OwedObstacle(policy, pending0, e)
      invariant inspected + OwedVisits(pending) + SubtreeVisits(item.node, count)
             == inspected0 + OwedVisits(pending0) + SubtreeVisits(item.node, i)
      invariant |pending| < |pending0| + i
    {
      var entry := item.node.entries[i];
      VisitsGrow(item.node, i + 1, count);
      VisitsStep(item.node, i);
      inspected := inspected + 1;
      if inspected > MAX_ENTRIES {
        return included, pending, inspected, Some(TooManyEntries);
      }
      var later;
      included, later, failure := ListEntry(item, entry, policy, included);
      if failure.Some? { return; }
      if later.Some? {
        Pushed(policy, pending, later.value);
        pending := pending + [later.value];
      }
    }
  }

  lemma VisitsStart(node: Tree)
    requires node.Dir?
    ensures SubtreeVisits(node, 0) == 0
  {
  }

  lemma VisitsStep(node: Tree, i: nat)
    requires node.Dir? && i < |node.entries|
    ensures SubtreeVisits(node, i + 1) == SubtreeVisits(node, i) + 1 + SubtreeEntryVisits(node.entries[i])
  {
  }

  lemma ObstacleByEntries(policy: Policy, item: Pending, e: Failure)
    requires item.node.Dir? && item.depth <= MAX_DEPTH
    ensures SubtreeObstacle(policy, item.node, item.here, item.depth, e) <==> EntriesObstruct(policy, item, 0, e)
  {
  }

  /** Every open file beneath `root`, whatever the listing order; a failure names a real obstacle. */
  method CollectLiteralSubtree(root: Tree, here: Path, policy: Policy, included0: set<Path>, inspected0: nat, armed: bool)
    returns (included: set<Path>, inspected: nat, failure: Option<Failure>)
    requires root.Dir? && inspected0 <= MAX_ENTRIES
    ensures failure.None? ==>
              && (forall path :: path in included <==> path in included0 || OwedBy(Pending(root, here, 0), path))
              && (forall e :: !SubtreeObstacle(policy, root, here, 0, e))
              && inspected == inspected0 + SubtreeVisits(root, |root.entries|) <= MAX_ENTRIES
    ensures failure.Some? ==>
              || (failure.value == Cancelled && armed)
              || (failure.value == TooManyEntries && inspected0 + SubtreeVisits(root, |root.entries|) > MAX_ENTRIES)
              || SubtreeObstacle(policy, root, here, 0, failure.value)
  {
    hide OpenFile, SubtreeVisits;
    included, inspected := included0, inspected0;
    var whole := Pending(root, here, 0);
    var pending := [whole];
    Pushed(policy, [], whole);
    assert [] + [whole] == [whole];
    while pending != []
      invariant Listable(pending) && inspected <= MAX_ENTRIES
      invariant SameAccount(policy, included, pending, inspected, included0, [whole], inspected0)
      decreases OwedVisits(pending) + |pending|
    {
      var stop := Poll(armed);
      if stop { return included, inspected, Some(Cancelled); }
      var item := pending[|pending| - 1];
      if item.depth > MAX_DEPTH {
        assert SubtreeObstacle(policy, item.node, item.here, item.depth, TooDeep);
        assert OwedObstacle(policy, pending, TooDeep);
        return included, inspected, Some(TooDeep);
      }
      included, pending, inspected, failure := ListDirectory(pending, policy, included, inspected);
      if failure.Some? { return; }
    }
    return included, inspected, None;
  }

  lemma {:induction false} VisitsGrow(node: Tree, i: nat, j: nat)
    requires node.Dir? && i <= j <= |node.entries|
    ensures SubtreeVisits(node, i) <= SubtreeVisits(node, j)
    decreases j
  {
    if i < j { VisitsGrow(node, i, j - 1); }
  }

  lemma {:induction false} PatternVisitsGrow(node: Tree, segments: seq<string>, index: nat, wild: bool, i: nat, j: nat)
    requires node.Dir? && index < |segments| && i <= j <= |node.entries|
    ensures PatternVisits(node, segments, index, wild, i) <= PatternVisits(node, segments, index, wild, j)
    decreases j
  {
    if i < j { PatternVisitsGrow(node, segments, index, wild, i, j - 1); }
  }

  ghost predicate HitFrom(node: Tree, segments: seq<string>, index: nat, wild: bool, here: Path, path: Path)
    requires index <= |segments|
  {
    here <= path && Hit(node, segments[index..], wild, path[|here|..])
  }

  ghost predicate EntriesHit(node: Tree, segments: seq<string>, index: nat, wild: bool, here: Path, from: nat, path: Path)
    requires node.Dir? && index < |segments|
  {
    exists i :: from <= i < |node.entries| && HitUnder(here, node.entries[i], segments[index..], wild, path)
  }

  ghost predicate EntriesRefuse(policy: Policy, node: Tree, segments: seq<string>, index: nat, wild: bool, here: Path, from: nat, e: Failure)
    requires node.Dir? && index < |segments|
  {
    exists i :: from <= i < |node.entries| && PatternEntryObstacle(policy, node.entries[i], segments, index, wild, here, e)
  }

  lemma HitByEntries(node: Tree, segments: seq<string>, index: nat, wild: bool, here: Path, path: Path)
    requires node.Dir? && index < |segments|
    ensures HitFrom(node, segments, index, wild, here, path) <==> EntriesHit(node, segments, index, wild, here, 0, path)
  {
    if HitFrom(node, segments, index, wild, here, path) {
      var i :| 0 <= i < |node.entries| && HitVia(node.entries[i], segments[index..], wild, path[|here|..]);
      assert HitUnder(here, node.entries[i], segments[index..], wild, path);
    }
    if EntriesHit(node, segments, index, wild, here, 0, path) {
      var i :| 0 <= i < |node.entries| && HitUnder(here, node.entries[i], segments[index..], wild, path);
      assert HitVia(node.entries[i], segments[index..], wild, path[|here|..]);
    }
  }

  /** What a matching entry contributes is what its node contributes to the next segment. */
  lemma HitUnderNext(here: Path, entry: Entry<string>, segments: seq<string>, index: nat, wild: bool, path: Path)
    requires index < |segments|
    ensures !(entry.name.Some? && !IsProtected(entry.name.value) && Matches(segments[index], entry.name.value))
            ==> !HitUnder(here, entry, segments[index..], wild, path)
    ensures entry.name.Some? && !IsProtected(entry.name.value) && Matches(segments[index], entry.name.value) ==>
            (HitUnder(here, entry, segments[index..], wild, path) <==>
             HitFrom(entry.node, segments, index + 1, wild, here + [entry.name.value], path))
  {
    assert segments[index..][1..] == segments[index + 1..];
    if here < path { assert path[|here|..][1..] == path[|here| + 1..]; }
    if entry.name.Some? {
      var one := here + [entry.name.value];
      if one <= path { assert path[|here|] == one[|here|]; assert here <= path; }
      if here < path && path[|here|] == entry.name.value { assert path[..|here| + 1] == one; }
    }
  }

  /** After the last segment only a file counts, or a whole directory when the pattern is literal. */
  lemma HitAtEnd(node: Tree, segments: seq<string>, wild: bool, here: Path, path: Path)
    ensures node.File? ==> (HitFrom(node, segments, |segments|, wild, here, path) <==> path == here)
    ensures node.Dir? && wild ==> !HitFrom(node, segments, |segments|, wild, here, path)
    ensures node.Dir? && !wild ==>
              (HitFrom(node, segments, |segments|, wild, here, path) <==> OwedBy(Pending(node, here, 0), path))
    ensures node.Link? || node.Special? ==> !HitFrom(node, segments, |segments|, wild, here, path)
  {
    if here <= path && path[|here|..] == [] { assert path == here; }
  }

  method CollectPolicyEntry(entry: Entry<string>, here: Path, segments: seq<string>, index: nat, wild: bool,
                            policy: Policy, included0: set<Path>, inspected0: nat, armed: bool)
    returns (included: set<Path>, inspected: nat, failure: Option<Failure>)
    requires index < |segments| && inspected0 <= MAX_ENTRIES
    ensures failure.None? ==>
              && (forall path :: path in included <==>
                    path in included0 || HitUnder(here, entry, segments[index..], wild, path))
              && (forall e :: !PatternEntryObstacle(policy, entry, segments, index, wild, here, e))
              && inspected == inspected0 + PatternEntryVisits(entry, segments, index, wild) <= MAX_ENTRIES
    ensures failure.Some? ==>
              || (failure.value == Cancelled && armed)
              || (failure.value == TooManyEntries && inspected0 + PatternEntryVisits(entry, segments, index, wild) > MAX_ENTRIES)
              || PatternEntryObstacle(policy, entry, segments, index, wild, here, failure.value)
    decreases entry
  {
    included, inspected, failure := included0, inspected0, None;
    forall path { HitUnderNext(here, entry, segments, index, wild, path); }
    if entry.name.None? || IsProtected(entry.name.value) { return; }
    var matched := WildcardComponentMatches(segments[index], entry.name.value);
    if !matched { return; }
    var path := here + [entry.name.value];
    if IsUnsafe(path) { return included, inspected, Some(UnsafePath(path)); }
    assert !HasControl(path[|here|]);
    if entry.node.Link? { return included, inspected, Some(SymbolicLink(path)); }
    if index + 1 < |segments| {
      if entry.node.Dir? {
        included, inspected, failure :=
          CollectPolicyPattern(entry.node, path, segments, index + 1, wild, policy, included, inspected, armed);
      }
      if failure.Some? { return; }
      assert inspected == inspected0 + PatternEntryVisits(entry, segments, index, wild);
    } else {
      forall p { HitAtEnd(entry.node, segments, wild, path, p); }
      if entry.node.File? {
        included, failure := IncludePolicyFile(path, policy, included);
      } else if entry.node.Dir? && !wild {
        included, inspected, failure := CollectLiteralSubtree(entry.node, path, policy, included, inspected, armed);
      }
      if failure.Some? { return; }
      assert inspected == inspected0 + PatternEntryVisits(entry, segments, index, wild);
    }
  }

  /** One directory against one pattern segment; matching directories are searched for the next one. */
  method CollectPolicyPattern(directory: Tree, here: Path, segments: seq<string>, index: nat, wild: bool,
                              policy: Policy, included0: set<Path>, inspected0: nat, armed: bool)
    returns (included: set<Path>, inspected: nat, failure: Option<Failure>)
    requires directory.Dir? && index < |segments| && inspected0 <= MAX_ENTRIES
    ensures failure.None? ==>
              && (forall path :: path in included <==>
                    path in included0 || HitFrom(directory, segments, index, wild, here, path))
              && (forall e :: !PatternObstacle(policy, directory, segments, index, wild, here, e))
              && inspected == inspected0 + PatternVisits(directory, segments, index, wild, |directory.entries|) <= MAX_ENTRIES
    ensures failure.Some? ==>
              || (failure.value == Cancelled && armed)
              || (failure.value == TooManyEntries
                  && inspected0 + PatternVisits(directory, segments, index, wild, |directory.entries|) > MAX_ENTRIES)
              || PatternObstacle(policy, directory, segments, index, wild, here, failure.value)
    decreases directory
  {
    included, inspected, failure := included0, inspected0, None;
    var stop := Poll(armed);
    if stop { return included, inspected, Some(Cancelled); }
    if index > MAX_DEPTH { return included, inspected, Some(TooDeep); }
    forall path { HitByEntries(directory, segments, index, wild, here, path); }
    var count := |directory.entries|;
    for i := 0 to count
      invariant failure.None? && inspected <= MAX_ENTRIES
      invariant forall path :: (path in included || EntriesHit(directory, segments, index, wild, here, i, path))
                          <==> (path in included0 || EntriesHit(directory, segments, index, wild, here, 0, path))
      invariant forall e :: EntriesRefuse(policy, directory, segments, index, wild, here, i, e)
                       <==> EntriesRefuse(policy, directory, segments, index, wild, here, 0, e)
      invariant inspected == inspected0 + PatternVisits(directory, segments, index, wild, i)
    {
      PatternVisitsGrow(directory, segments, index, wild, i + 1, count);
      inspected := inspected + 1;
      if inspected > MAX_ENTRIES { return included, inspected, Some(TooManyEntries); }
      included, inspected, failure :=
        CollectPolicyEntry(directory.entries[i], here, segments, index, wild, policy, included, inspected, armed);
      if failure.Some? { return; }
    }
    forall e ensures !PatternObstacle(policy, directory, segments, index, wild, here, e) {
      assert !EntriesRefuse(policy, directory, segments, index, wild, here, count, e);
      assert !EntriesRefuse(policy, directory, segments, index, wild, here, 0, e);
    }
  }

  // ---- the whole expansion ----

  /** What the policy's patterns select in a project. */
  ghost predicate Selected(root: Tree, policy: Policy, path: Path) {
    OpenFile(root, path) && policy.IsAlwaysIncluded(path)
  }

  ghost function PatternCost(root: Tree, pattern: string): nat
    requires root.Dir?
  {
    PatternVisits(root, Split(pattern, '/'), 0, HasWildcard(pattern), |root.entries|)
  }

  ghost function ExpansionVisits(root: Tree, policy: Policy, count: nat): nat
    requires root.Dir? && count <= |policy.alwaysInclude|
  {
    if count == 0 then 0
    else ExpansionVisits(root, policy, count - 1) + PatternCost(root, policy.alwaysInclude[count - 1])
  }

  ghost predicate PatternRefused(root: Tree, policy: Policy, pattern: string, e: Failure)
    requires root.Dir?
  {
    PatternObstacle(policy, root, Split(pattern, '/'), 0, HasWildcard(pattern), [], e)
  }

  ghost predicate ExpansionObstacle(root: Tree, policy: Policy, e: Failure)
    requires root.Dir?
  {
    exists i :: 0 <= i < |policy.alwaysInclude| && PatternRefused(root, policy, policy.alwaysInclude[i], e)
  }

  ghost predicate SelectedBy(root: Tree, pattern: string, path: Path) {
    OpenFile(root, path) && PatternMatches(pattern, path)
  }

  /** One pattern of the policy, from the project root. */
  method CollectPattern(root: Tree, pattern: string, policy: Policy, included0: set<Path>, inspected0: nat, armed: bool)
    returns (included: set<Path>, inspected: nat, failure: Option<Failure>)
    requires root.Dir? && inspected0 <= MAX_ENTRIES
    ensures failure.None? ==>
              && (forall path :: path in included <==> path in included0 || SelectedBy(root, pattern, path))
              && (forall e :: !PatternRefused(root, policy, pattern, e))
              && inspected == inspected0 + PatternCost(root, pattern) <= MAX_ENTRIES
    ensures failure.Some? ==>
              || (failure.value == Cancelled && armed)
              || (failure.value == TooManyEntries && inspected0 + PatternCost(root, pattern) > MAX_ENTRIES)
              || PatternRefused(root, policy, pattern, failure.value)
  {
    var segments := Split(pattern, '/');
    included, inspected, failure :=
      CollectPolicyPattern(root, [], segments, 0, HasWildcard(pattern), policy, included0, inspected0, armed);
    forall path
      ensures HitFrom(root, segments, 0, HasWildcard(pattern), [], path) <==> SelectedBy(root, pattern, path)
    {
      assert segments[0..] == segments && path[0..] == path;
      HitIsPatternMatch(root, pattern, path);
    }
  }

  /**
   * The expansion succeeds exactly when nothing obstructs it, the entry limit holds and nobody cancels;
   * it then yields exactly the open files the policy always includes.
   */
  method CollectAlwaysIncludedFiles(root: Tree, policy: Policy, armed: bool)
    returns (included: set<Path>, failure: Option<Failure>)
    requires root.Dir?
    ensures failure.None? ==>
              && (forall path :: path in included <==> Selected(root, policy, path))
              && (forall e :: !ExpansionObstacle(root, policy, e))
              && ExpansionVisits(root, policy, |policy.alwaysInclude|) <= MAX_ENTRIES
    ensures failure.Some? ==>
              || (failure.value == Cancelled && armed)
              || (failure.value == TooManyEntries && ExpansionVisits(root, policy, |policy.alwaysInclude|) > MAX_ENTRIES)
              || ExpansionObstacle(root, policy, failure.value)
  {
    hide PatternRefused, PatternCost, SelectedBy, Selected;
    included, failure := {}, None;
    var inspected := 0;
    for i := 0 to |policy.alwaysInclude|
      invariant failure.None?
      invariant forall path :: path in included <==>
                  exists j :: 0 <= j < i && SelectedBy(root, policy.alwaysInclude[j], path)
      invariant forall j, e :: 0 <= j < i ==> !PatternRefused(root, policy, policy.alwaysInclude[j], e)
      invariant inspected == ExpansionVisits(root, policy, i) <= MAX_ENTRIES
    {
      ExpansionGrows(root, policy, i + 1, |policy.alwaysInclude|);
      included, inspected, failure := CollectPattern(root, policy.alwaysInclude[i], policy, included, inspected, armed);
      if failure.Some? { return; }
    }
    forall path ensures path in included <==> Selected(root, policy, path) {
      SelectedByPatterns(root, policy, path);
    }
  }

  lemma SelectedByPatterns(root: Tree, policy: Policy, path: Path)
    ensures Selected(root, policy, path)
            <==> exists j :: 0 <= j < |policy.alwaysInclude| && SelectedBy(root, policy.alwaysInclude[j], path)
  {
    hide OpenFile, PatternMatches;
    if Selected(root, policy, path) {
      var j :| 0 <= j < |policy.alwaysInclude| && PatternMatches(policy.alwaysInclude[j], path);
      assert SelectedBy(root, policy.alwaysInclude[j], path);
    }
  }

  lemma {:induction false} ExpansionGrows(root: Tree, policy: Policy, i: nat, j: nat)
    requires root.Dir? && i <= j <= |policy.alwaysInclude|
    ensures ExpansionVisits(root, policy, i) <= ExpansionVisits(root, policy, j)
    decreases j
  {
    if i < j { ExpansionGrows(root, policy, i, j - 1); }
  }

  lemma {:induction false} OpenFileIsFile(node: Tree, path: Path)
    requires OpenFile(node, path)
    ensures IsFile(node, path)
    decreases node
  {
    if path == [] {
      assert FileAt(node, path, node.content);
    } else {
      var i :| 0 <= i < |node.entries| && OpenVia(node.entries[i], path);
      OpenFileIsFile(node.entries[i].node, path[1..]);
      var content :| FileAt(node.entries[i].node, path[1..], content);
      assert Leads(node.entries[i], path, content);
      assert FileAt(node, path, content);
    }
  }

  /** Whatever `a` lists, `b` lists too, in any order, at every level. */
  ghost predicate ListedIn(a: Tree, b: Tree) {
    if a.Dir? then
      b.Dir? && forall i :: 0 <= i < |a.entries| ==> EntryListedIn(a.entries[i], b)
    else a == b
  }

  ghost predicate EntryListedIn(entry: Entry<string>, b: Tree)
    requires b.Dir?
  {
    exists j :: 0 <= j < |b.entries| && b.entries[j].name == entry.name && ListedIn(entry.node, b.entries[j].node)
  }

  lemma {:induction false} ListedInOpenFile(a: Tree, b: Tree, path: Path)
    requires ListedIn(a, b) && OpenFile(a, path)
    ensures OpenFile(b, path)
    decreases a
  {
    if path != [] {
      var i :| 0 <= i < |a.entries| && OpenVia(a.entries[i], path);
      assert EntryListedIn(a.entries[i], b);
      var j :| 0 <= j < |b.entries| && b.entries[j].name == a.entries[i].name
               && ListedIn(a.entries[i].node, b.entries[j].node);
      ListedInOpenFile(a.entries[i].node, b.entries[j].node, path[1..]);
      assert OpenVia(b.entries[j], path);
    }
  }

  /** The expansion's result does not depend on the order in which directories list their entries. */
  lemma ListingOrderIrrelevant(a: Tree, b: Tree, policy: Policy, path: Path)
    requires ListedIn(a, b) && ListedIn(b, a)
    ensures Selected(a, policy, path) <==> Selected(b, policy, path)
  {
    if OpenFile(a, path) { ListedInOpenFile(a, b, path); }
    if OpenFile(b, path) { ListedInOpenFile(b, a, path); }
  }
}
