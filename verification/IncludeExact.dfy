/** The expansion of include patterns, said of places in the project instead of steps of the walk. */
module IncludeExact {
  import opened Wrappers
  import opened Text
  import opened Glob
  import opened FileTree
  import opened CheckpointPolicy
  import opened IncludeWalk

  // ---- what is selected ----

  predicate ProtectedName(name: string) {
    CaseVariants(name, ".git") || CaseVariants(name, ".oleafly") || CaseVariants(name, "node_modules")
  }

  lemma ProtectedExact(name: string)
    ensures IsProtected(name) <==> ProtectedName(name)
  {
    FoldExact(name, ".git");
    FoldExact(name, ".oleafly");
    FoldExact(name, "node_modules");
    assert Fold(".git") == ".git" && Fold(".oleafly") == ".oleafly" && Fold("node_modules") == "node_modules";
  }

  lemma {:induction false} OpenFileExact(node: Tree, path: Path)
    ensures OpenFile(node, path) <==> IsFile(node, path) && forall i :: 0 <= i < |path| ==> !ProtectedName(path[i])
    decreases |path|
  {
    if path == [] {
      if node.File? { assert FileAt(node, path, node.content); }
    } else {
      ProtectedExact(path[0]);
      hide IsProtected, ProtectedName;
      if node.Dir? {
        forall i | 0 <= i < |node.entries| && node.entries[i].name == Some(path[0])
          ensures OpenFile(node.entries[i].node, path[1..])
                  <==> IsFile(node.entries[i].node, path[1..]) && forall k :: 1 <= k < |path| ==> !ProtectedName(path[k])
        {
          OpenFileExact(node.entries[i].node, path[1..]);
          assert forall k :: 1 <= k < |path| ==> path[k] == path[1..][k - 1];
        }
      }
      if OpenFile(node, path) { OpenFileIsFile(node, path); }
      if IsFile(node, path) {
        var content :| FileAt(node, path, content);
        var i :| 0 <= i < |node.entries| && Leads(node.entries[i], path, content);
        assert FileAt(node.entries[i].node, path[1..], content);
        assert IsFile(node.entries[i].node, path[1..]);
        assert OpenVia(node.entries[i], path) <==> OpenFile(node.entries[i].node, path[1..]);
      }
    }
  }

  /** Selected are the files that some pattern matches and that no protected component leads to, in any letter case. */
  lemma SelectedExact(root: Tree, policy: Policy, path: Path)
    ensures Selected(root, policy, path) <==>
            && IsFile(root, path)
            && (forall i :: 0 <= i < |path| ==> !ProtectedName(path[i]))
            && exists k :: 0 <= k < |policy.alwaysInclude| && PatternMatches(policy.alwaysInclude[k], path)
  {
    hide PatternMatches, ProtectedName;
    OpenFileExact(root, path);
  }

  // ---- what stops an expansion ----

  /** `place` leads from `node` to the directory `dir`. */
  ghost predicate DirAt(node: Tree, place: Path, dir: Tree) {
    if place == [] then node == dir && dir.Dir?
    else node.Dir? && exists i :: 0 <= i < |node.entries| && DirVia(node.entries[i], place, dir)
  }

  ghost predicate DirVia(entry: Entry<string>, place: Path, dir: Tree)
    requires place != []
  {
    entry.name == Some(place[0]) && DirAt(entry.node, place[1..], dir)
  }

  ghost predicate Passes(segment: string, name: string) { Matches(segment, name) && !HasControl(name) }

  /**
   * A pattern enters the directories that match its first segments with a printable name and, without wildcards, those
   * below a full match; it never enters a protected one. The components of `place` come after `done` others.
   */
  ghost predicate Enters(segments: seq<string>, wild: bool, done: nat, place: Path) {
    && (forall i :: 0 <= i < |place| ==> !IsProtected(place[i]))
    && (forall i :: 0 <= i < |place| && done + i < |segments| ==> Passes(segments[done + i], place[i]))
    && (wild ==> done + |place| < |segments|)
  }

  /** What the entries of an entered directory can be refused for. */
  ghost predicate EntryTrouble(policy: Policy, segments: seq<string>, place: Path, entry: Entry<string>, e: Failure) {
    match entry.name
    case None => |place| >= |segments| && e == NotUnicode
    case Some(name) =>
      && !IsProtected(name) && (|place| < |segments| ==> Matches(segments[|place|], name))
      && var path := place + [name];
         if IsUnsafe(path) then (|place| < |segments| || entry.node.Link? || entry.node.File?) && e == UnsafePath(path)
         else if entry.node.Link? then e == SymbolicLink(path)
         else entry.node.File? && |path| >= |segments| && policy.IsIgnored(path) && e == BothIncludedAndIgnored(path)
  }

  ghost predicate Trouble(policy: Policy, segments: seq<string>, place: Path, dir: Tree, e: Failure)
    requires dir.Dir?
  {
    || ((if |place| < |segments| then |place| else |place| - |segments|) > 64 && e == TooDeep)
    || exists i :: 0 <= i < |dir.entries| && EntryTrouble(policy, segments, place, dir.entries[i], e)
  }

  ghost predicate TroubleAt(policy: Policy, node: Tree, segments: seq<string>, wild: bool, here: Path, e: Failure, place: Path, dir: Tree) {
    && DirAt(node, place, dir) && dir.Dir? && Enters(segments, wild, |here|, place)
    && Trouble(policy, segments, here + place, dir, e)
  }

  ghost predicate Troubled(policy: Policy, node: Tree, segments: seq<string>, wild: bool, here: Path, e: Failure) {
    exists place, dir :: TroubleAt(policy, node, segments, wild, here, e, place, dir)
  }

  /** Trouble in a directory is its own or that of an entry the pattern enters. */
  lemma TroubledUnfold(policy: Policy, node: Tree, segments: seq<string>, wild: bool, here: Path, e: Failure)
    requires node.Dir? && (wild ==> |here| < |segments|)
    ensures Troubled(policy, node, segments, wild, here, e) <==>
            || Trouble(policy, segments, here, node, e)
            || exists i :: 0 <= i < |node.entries| && TroubledEntry(policy, node.entries[i], segments, wild, here, e)
  {
    hide Trouble, Troubled, TroubledEntry;
    if Trouble(policy, segments, here, node, e) { OwnTrouble(policy, node, segments, wild, here, e); }
    if i :| 0 <= i < |node.entries| && TroubledEntry(policy, node.entries[i], segments, wild, here, e) {
      EntryIsTroubled(policy, node, segments, wild, here, e, i);
    }
    if Troubled(policy, node, segments, wild, here, e) { TroubleIsThere(policy, node, segments, wild, here, e); }
  }

  lemma OwnTrouble(policy: Policy, node: Tree, segments: seq<string>, wild: bool, here: Path, e: Failure)
    requires node.Dir? && (wild ==> |here| < |segments|) && Trouble(policy, segments, here, node, e)
    ensures Troubled(policy, node, segments, wild, here, e)
  {
    hide Trouble;
    assert here + [] == here;
    assert TroubleAt(policy, node, segments, wild, here, e, [], node);
  }

  lemma EntersNext(segments: seq<string>, wild: bool, done: nat, place: Path)
    requires place != []
    ensures Enters(segments, wild, done, place) <==>
            && !IsProtected(place[0]) && (done < |segments| ==> Passes(segments[done], place[0]))
            && Enters(segments, wild, done + 1, place[1..])
  {
    hide IsProtected, Passes;
    assert place == [place[0]] + place[1..];
    assert forall i :: 0 <= i < |place| - 1 ==> place[1..][i] == place[i + 1];
    if Enters(segments, wild, done + 1, place[1..]) && !IsProtected(place[0]) && (done < |segments| ==> Passes(segments[done], place[0])) {
      forall i | 0 <= i < |place| ensures !IsProtected(place[i]) { if i > 0 { assert place[1..][i - 1] == place[i]; } }
      forall i | 0 <= i < |place| && done + i < |segments| ensures Passes(segments[done + i], place[i]) {
        if i > 0 { assert place[1..][i - 1] == place[i]; }
      }
    }
  }

  lemma EntryIsTroubled(policy: Policy, node: Tree, segments: seq<string>, wild: bool, here: Path, e: Failure, i: nat)
    requires node.Dir? && i < |node.entries| && TroubledEntry(policy, node.entries[i], segments, wild, here, e)
    ensures Troubled(policy, node, segments, wild, here, e)
  {
    hide Trouble, Enters, IsProtected, Passes;
    var name := node.entries[i].name.value;
    var place, dir :| TroubleAt(policy, node.entries[i].node, segments, wild, here + [name], e, place, dir);
    var whole := [name] + place;
    assert whole[1..] == place && here + [name] + place == here + whole;
    EntersNext(segments, wild, |here|, whole);
    assert DirVia(node.entries[i], whole, dir);
    assert TroubleAt(policy, node, segments, wild, here, e, whole, dir);
  }

  lemma TroubleIsThere(policy: Policy, node: Tree, segments: seq<string>, wild: bool, here: Path, e: Failure)
    requires node.Dir? && Troubled(policy, node, segments, wild, here, e)
    ensures Trouble(policy, segments, here, node, e)
            || exists i :: 0 <= i < |node.entries| && TroubledEntry(policy, node.entries[i], segments, wild, here, e)
  {
    hide Trouble, Enters, IsProtected, Passes;
    var place, dir :| TroubleAt(policy, node, segments, wild, here, e, place, dir);
    if place == [] {
      assert here + place == here;
    } else {
      var i :| 0 <= i < |node.entries| && DirVia(node.entries[i], place, dir);
      EntersNext(segments, wild, |here|, place);
      assert here + [place[0]] + place[1..] == here + place;
      assert TroubleAt(policy, node.entries[i].node, segments, wild, here + [place[0]], e, place[1..], dir);
      assert node.entries[i].node.Dir?;
      assert TroubledEntry(policy, node.entries[i], segments, wild, here, e);
    }
  }

  ghost predicate TroubledEntry(policy: Policy, entry: Entry<string>, segments: seq<string>, wild: bool, here: Path, e: Failure) {
    && entry.name.Some? && !IsProtected(entry.name.value) && entry.node.Dir?
    && (|here| < |segments| ==> Passes(segments[|here|], entry.name.value))
    && Troubled(policy, entry.node, segments, wild, here + [entry.name.value], e)
  }

  lemma {:induction false} SubtreeExact(policy: Policy, node: Tree, segments: seq<string>, here: Path, e: Failure)
    requires node.Dir? && |segments| <= |here|
    ensures SubtreeObstacle(policy, node, here, |here| - |segments|, e) <==> Troubled(policy, node, segments, false, here, e)
    decreases node
  {
    hide Troubled, IsProtected, IsUnsafe, Policy.IsIgnored;
    TroubledUnfold(policy, node, segments, false, here, e);
    forall i | 0 <= i < |node.entries|
      ensures SubtreeEntryObstacle(policy, node.entries[i], here, |here| - |segments|, e) <==>
              || EntryTrouble(policy, segments, here, node.entries[i], e)
              || TroubledEntry(policy, node.entries[i], segments, false, here, e)
    {
      var entry := node.entries[i];
      if entry.name.Some? && entry.node.Dir? {
        SubtreeExact(policy, entry.node, segments, here + [entry.name.value], e);
      }
    }
    hide SubtreeEntryObstacle, EntryTrouble, TroubledEntry;
  }

  lemma {:induction false} PatternExact(policy: Policy, node: Tree, segments: seq<string>, wild: bool, here: Path, e: Failure)
    requires node.Dir? && |here| < |segments| && !IsUnsafe(here)
    ensures PatternObstacle(policy, node, segments, |here|, wild, here, e) <==> Troubled(policy, node, segments, wild, here, e)
    decreases node
  {
    hide Troubled, IsProtected, IsUnsafe, Policy.IsIgnored, Matches, HasControl;
    TroubledUnfold(policy, node, segments, wild, here, e);
    forall i | 0 <= i < |node.entries|
      ensures PatternEntryObstacle(policy, node.entries[i], segments, |here|, wild, here, e) <==>
              || EntryTrouble(policy, segments, here, node.entries[i], e)
              || TroubledEntry(policy, node.entries[i], segments, wild, here, e)
    {
      var entry := node.entries[i];
      if entry.name.Some? { UnsafeName(here, entry.name.value); }
      if entry.name.Some? && entry.node.Dir? && !HasControl(entry.name.value) {
        var inside := here + [entry.name.value];
        if |inside| < |segments| { PatternExact(policy, entry.node, segments, wild, inside, e); }
        else if !wild { SubtreeExact(policy, entry.node, segments, inside, e); }
        else { NotEntered(policy, entry.node, segments, inside, e); }
      }
    }
    hide PatternEntryObstacle, EntryTrouble, TroubledEntry;
  }

  lemma UnsafeName(here: Path, name: string)
    requires !IsUnsafe(here)
    ensures IsUnsafe(here + [name]) <==> HasControl(name)
  {
    hide HasControl;
    var path := here + [name];
    if HasControl(name) { assert HasControl(path[|here|]); }
    assert forall i :: 0 <= i < |here| ==> path[i] == here[i];
  }

  /** A pattern with wildcards does not go beneath a full match. */
  lemma NotEntered(policy: Policy, node: Tree, segments: seq<string>, here: Path, e: Failure)
    requires |segments| <= |here|
    ensures !Troubled(policy, node, segments, true, here, e)
  {
  }

  /** The pattern enters the directory at `place`, which gives the reason to refuse it. */
  ghost predicate Stops(root: Tree, policy: Policy, pattern: string, e: Failure, place: Path, dir: Tree) {
    && DirAt(root, place, dir) && dir.Dir? && Enters(Split(pattern, '/'), HasWildcard(pattern), 0, place)
    && Trouble(policy, Split(pattern, '/'), place, dir, e)
  }

  /** The reasons to refuse a pattern are exactly the troubles in the directories that it enters. */
  lemma RefusedExact(root: Tree, policy: Policy, pattern: string, e: Failure)
    requires root.Dir?
    ensures PatternRefused(root, policy, pattern, e) <==> exists place, dir :: Stops(root, policy, pattern, e, place, dir)
  {
    hide Trouble, Enters, DirAt;
    var segments, wild := Split(pattern, '/'), HasWildcard(pattern);
    PatternExact(policy, root, segments, wild, [], e);
    forall place, dir
      ensures TroubleAt(policy, root, segments, wild, [], e, place, dir) <==> Stops(root, policy, pattern, e, place, dir)
    {
      assert [] + place == place;
    }
  }

  // ---- how many entries an expansion inspects ----

  ghost predicate EntersEntry(segments: seq<string>, wild: bool, done: nat, entry: Entry<string>) {
    && entry.name.Some? && entry.node.Dir? && !IsProtected(entry.name.value) && (wild ==> done + 1 < |segments|)
    && (done < |segments| ==> Passes(segments[done], entry.name.value))
  }

  /** The entries inspected by a pattern in the first `count` entries of a directory, each by its directory and index. */
  ghost function Seen(node: Tree, segments: seq<string>, wild: bool, done: nat, count: nat): set<(Path, nat)>
    requires node.Dir? && count <= |node.entries|
    decreases node, count
  {
    if count == 0 then {}
    else Seen(node, segments, wild, done, count - 1) + {([], count - 1)} + SeenBelow(node.entries[count - 1], segments, wild, done)
  }

  ghost function SeenBelow(entry: Entry<string>, segments: seq<string>, wild: bool, done: nat): set<(Path, nat)>
    decreases entry
  {
    if !EntersEntry(segments, wild, done, entry) then {}
    else Prefixed(entry.name.value, Seen(entry.node, segments, wild, done + 1, |entry.node.entries|))
  }

  ghost function Prefixed(name: string, seen: set<(Path, nat)>): set<(Path, nat)> {
    set at | at in seen :: ([name] + at.0, at.1)
  }

  lemma {:induction false} PrefixedSize(name: string, seen: set<(Path, nat)>)
    ensures |Prefixed(name, seen)| == |seen|
  {
    if seen != {} {
      var at :| at in seen;
      PrefixedSize(name, seen - {at});
      var key := ([name] + at.0, at.1);
      assert Prefixed(name, seen) == Prefixed(name, seen - {at}) + {key};
      assert key.0[1..] == at.0;
      PrefixedIs(name, seen - {at}, key.0, key.1);
    }
  }

  lemma PrefixedIs(name: string, seen: set<(Path, nat)>, place: Path, i: nat)
    ensures (place, i) in Prefixed(name, seen) <==> place != [] && place[0] == name && (place[1..], i) in seen
  {
    if place != [] && place[0] == name && (place[1..], i) in seen { assert [name] + place[1..] == place; }
    if (place, i) in Prefixed(name, seen) {
      var at :| at in seen && ([name] + at.0, at.1) == (place, i);
      assert place[1..] == at.0;
    }
  }

  ghost predicate Inspects(node: Tree, segments: seq<string>, wild: bool, done: nat, place: Path, i: nat) {
    exists dir :: DirAt(node, place, dir) && dir.Dir? && i < |dir.entries| && Enters(segments, wild, done, place)
  }

  /** Seen in the first `count` entries: the entries themselves, and what is inspected below those that are entered. */
  lemma {:induction false} SeenIs(node: Tree, segments: seq<string>, wild: bool, done: nat, count: nat, place: Path, i: nat)
    requires node.Dir? && count <= |node.entries|
    ensures (place, i) in Seen(node, segments, wild, done, count) <==>
            if place == [] then i < count
            else exists k :: 0 <= k < count && node.entries[k].name == Some(place[0]) && EntersEntry(segments, wild, done, node.entries[k])
                             && (place[1..], i) in Seen(node.entries[k].node, segments, wild, done + 1, |node.entries[k].node.entries|)
    decreases count
  {
    hide IsProtected, Matches, EntersEntry;
    if count > 0 {
      SeenIs(node, segments, wild, done, count - 1, place, i);
      var entry := node.entries[count - 1];
      if EntersEntry(segments, wild, done, entry) {
        EntersKind(segments, wild, done, entry);
        PrefixedIs(entry.name.value, Seen(entry.node, segments, wild, done + 1, |entry.node.entries|), place, i);
      }
    }
  }

  lemma EntersKind(segments: seq<string>, wild: bool, done: nat, entry: Entry<string>)
    requires EntersEntry(segments, wild, done, entry)
    ensures entry.name.Some? && entry.node.Dir?
  {
  }

  lemma {:induction false} SeenExact(node: Tree, segments: seq<string>, wild: bool, done: nat, place: Path, i: nat)
    requires node.Dir? && (wild ==> done < |segments|)
    ensures (place, i) in Seen(node, segments, wild, done, |node.entries|) <==> Inspects(node, segments, wild, done, place, i)
    decreases node
  {
    hide IsProtected, Passes, Seen;
    SeenIs(node, segments, wild, done, |node.entries|, place, i);
    if place == [] {
      if i < |node.entries| { assert DirAt(node, place, node) && Enters(segments, wild, done, place); }
    } else {
      EntersNext(segments, wild, done, place);
      forall k | 0 <= k < |node.entries| && node.entries[k].name == Some(place[0])
        ensures EntersEntry(segments, wild, done, node.entries[k])
                && (place[1..], i) in Seen(node.entries[k].node, segments, wild, done + 1, |node.entries[k].node.entries|)
                <==> InspectsVia(node.entries[k], segments, wild, done, place, i)
      {
        ViaEntry(segments, wild, done, node.entries[k], place);
        if EntersEntry(segments, wild, done, node.entries[k]) { SeenExact(node.entries[k].node, segments, wild, done + 1, place[1..], i); }
      }
      hide Enters, EntersEntry;
      if k :| 0 <= k < |node.entries| && node.entries[k].name == Some(place[0]) && InspectsVia(node.entries[k], segments, wild, done, place, i) {
        var dir :| DirAt(node.entries[k].node, place[1..], dir) && dir.Dir? && i < |dir.entries|;
        assert DirVia(node.entries[k], place, dir);
        assert DirAt(node, place, dir);
      }
      if Inspects(node, segments, wild, done, place, i) {
        var dir :| DirAt(node, place, dir) && dir.Dir? && i < |dir.entries|;
        var k :| 0 <= k < |node.entries| && DirVia(node.entries[k], place, dir);
        assert InspectsVia(node.entries[k], segments, wild, done, place, i);
      }
    }
  }

  ghost predicate InspectsVia(entry: Entry<string>, segments: seq<string>, wild: bool, done: nat, place: Path, i: nat)
    requires place != []
  {
    Enters(segments, wild, done, place) && exists dir :: DirAt(entry.node, place[1..], dir) && dir.Dir? && i < |dir.entries|
  }

  /** Only an entry that is itself entered has anything entered below. */
  lemma ViaEntry(segments: seq<string>, wild: bool, done: nat, entry: Entry<string>, place: Path)
    requires place != [] && entry.name == Some(place[0])
    ensures Enters(segments, wild, done, place) && entry.node.Dir? <==>
            EntersEntry(segments, wild, done, entry) && Enters(segments, wild, done + 1, place[1..])
  {
    hide IsProtected, Passes;
    EntersNext(segments, wild, done, place);
  }

  lemma {:induction false} SeenSize(node: Tree, segments: seq<string>, wild: bool, done: nat, count: nat)
    requires node.Dir? && DistinctNames(node) && count <= |node.entries| && (wild ==> done < |segments|)
    ensures |Seen(node, segments, wild, done, count)|
            == if done < |segments| then PatternVisits(node, segments, done, wild, count) else SubtreeVisits(node, count)
    decreases node, count
  {
    if count > 0 {
      SeenSize(node, segments, wild, done, count - 1);
      var entry := node.entries[count - 1];
      SeenApart(node, segments, wild, done, count);
      BelowSize(entry, segments, wild, done);
    }
  }

  lemma {:induction false} BelowSize(entry: Entry<string>, segments: seq<string>, wild: bool, done: nat)
    requires DistinctNames(entry.node) && (wild ==> done < |segments|)
    ensures |SeenBelow(entry, segments, wild, done)|
            == if done < |segments| then PatternEntryVisits(entry, segments, done, wild) else SubtreeEntryVisits(entry)
    decreases entry
  {
    hide IsProtected, Matches, HasControl, Prefixed, Seen;
    if EntersEntry(segments, wild, done, entry) {
      SeenSize(entry.node, segments, wild, done + 1, |entry.node.entries|);
      PrefixedSize(entry.name.value, Seen(entry.node, segments, wild, done + 1, |entry.node.entries|));
    }
  }

  lemma SeenApart(node: Tree, segments: seq<string>, wild: bool, done: nat, count: nat)
    requires node.Dir? && DistinctNames(node) && 0 < count <= |node.entries|
    ensures |Seen(node, segments, wild, done, count)|
            == |Seen(node, segments, wild, done, count - 1)| + 1 + |SeenBelow(node.entries[count - 1], segments, wild, done)|
  {
    var entry := node.entries[count - 1];
    var before, below := Seen(node, segments, wild, done, count - 1), SeenBelow(entry, segments, wild, done);
    var here: (Path, nat) := ([], count - 1);
    SeenIs(node, segments, wild, done, count - 1, [], count - 1);
    forall at | at in below ensures at !in before && at != here {
      PrefixedIs(entry.name.value, Seen(entry.node, segments, wild, done + 1, |entry.node.entries|), at.0, at.1);
      SeenIs(node, segments, wild, done, count - 1, at.0, at.1);
    }
    assert here !in before;
    assert Seen(node, segments, wild, done, count) == before + {here} + below;
    assert before !! {here} && (before + {here}) !! below;
  }

  /** A pattern's cost is the number of entries in the directories that it enters. */
  lemma CostExact(root: Tree, pattern: string) returns (inspected: set<(Path, nat)>)
    requires root.Dir? && DistinctNames(root)
    ensures forall place, i: nat :: (place, i) in inspected <==> Inspects(root, Split(pattern, '/'), HasWildcard(pattern), 0, place, i)
    ensures PatternCost(root, pattern) == |inspected|
  {
    hide Inspects, Seen;
    var segments, wild := Split(pattern, '/'), HasWildcard(pattern);
    inspected := Seen(root, segments, wild, 0, |root.entries|);
    forall place, i: nat { SeenExact(root, segments, wild, 0, place, i); }
    SeenSize(root, segments, wild, 0, |root.entries|);
  }

  ghost function Total(root: Tree, patterns: seq<string>): nat
    requires root.Dir?
  {
    if patterns == [] then 0 else PatternCost(root, patterns[0]) + Total(root, patterns[1..])
  }

  lemma {:induction false} TotalSplit(root: Tree, patterns: seq<string>, last: string)
    requires root.Dir?
    ensures Total(root, patterns + [last]) == Total(root, patterns) + PatternCost(root, last)
  {
    hide PatternCost;
    if patterns == [] {
      assert (patterns + [last])[1..] == [];
    } else {
      assert (patterns + [last])[1..] == patterns[1..] + [last];
      TotalSplit(root, patterns[1..], last);
    }
  }

  lemma {:induction false} VisitsAreTotal(root: Tree, policy: Policy, count: nat)
    requires root.Dir? && count <= |policy.alwaysInclude|
    ensures ExpansionVisits(root, policy, count) == Total(root, policy.alwaysInclude[..count])
  {
    hide PatternCost;
    if count > 0 {
      VisitsAreTotal(root, policy, count - 1);
      TotalSplit(root, policy.alwaysInclude[..count - 1], policy.alwaysInclude[count - 1]);
      assert policy.alwaysInclude[..count] == policy.alwaysInclude[..count - 1] + [policy.alwaysInclude[count - 1]];
    }
  }

  /** An expansion is refused for what one of its patterns is refused for, and costs what its patterns cost together. */
  lemma ExpansionExact(root: Tree, policy: Policy)
    requires root.Dir?
    ensures forall e :: ExpansionObstacle(root, policy, e) <==>
              exists pattern :: pattern in policy.alwaysInclude && PatternRefused(root, policy, pattern, e)
    ensures ExpansionVisits(root, policy, |policy.alwaysInclude|) == Total(root, policy.alwaysInclude)
  {
    hide PatternRefused, PatternCost;
    VisitsAreTotal(root, policy, |policy.alwaysInclude|);
    assert policy.alwaysInclude[..|policy.alwaysInclude|] == policy.alwaysInclude;
    forall e
      ensures ExpansionObstacle(root, policy, e) <==>
              exists pattern :: pattern in policy.alwaysInclude && PatternRefused(root, policy, pattern, e)
    {
      if pattern :| pattern in policy.alwaysInclude && PatternRefused(root, policy, pattern, e) {
        var i :| 0 <= i < |policy.alwaysInclude| && policy.alwaysInclude[i] == pattern;
      }
    }
  }
}
