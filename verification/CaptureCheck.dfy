/** The inputs of a checkpoint, and the fast test that a recorded checkpoint still describes the worktree. */
module CaptureCheck {
  import opened Bytes
  import opened Wrappers
  import opened FileTree
  import opened CheckpointPolicy
  import opened IncludeWalk

  const MANIFEST_PATH: Path := [MANIFEST]

  /** `Replay` carries the hash taken before sealing and whether the bytes are stored. */
  datatype CaptureInput<H> = Explicit | Replay(presealHash: H, stored: bool)
  {
    predicate IsStored() { Explicit? || stored }
  }

  datatype FileRecord<H> = FileRecord(path: Path, logicalBytes: nat, contentHash: H, stored: bool)

  /** What other parts of the program decide: `validate`, portable paths, content digests. */
  datatype Rules<!H> = Rules(valid: Policy -> bool, portable: Path -> bool, digest: Bytes -> H)

  function AsSet(paths: seq<Path>): set<Path> { set path | path in paths }

  predicate Stored(main: Path, ignored: bool, path: Path) {
    path == MANIFEST_PATH || path == main || !ignored
  }

  /** The expansion of the policy goes through on this worktree. */
  ghost predicate Expands(root: Tree, policy: Policy)
    requires root.Dir?
  {
    && (forall e :: !ExpansionObstacle(root, policy, e))
    && ExpansionVisits(root, policy, |policy.alwaysInclude|) <= MAX_ENTRIES
  }

  ghost predicate Listed(root: Tree, required: set<Path>, policy: Policy, path: Path) {
    Selected(root, policy, path) || path in required || path == MANIFEST_PATH
  }

  ghost predicate RightInput<H>(root: Tree, required: set<Path>, main: Path, policy: Policy, rules: Rules<H>,
                                path: Path, input: CaptureInput<H>) {
    if path in required then
      exists content :: FileAt(root, path, content)
                        && input == Replay(rules.digest(content), Stored(main, policy.IsIgnored(path), path))
    else input == Explicit
  }

  /** What `build_capture_inputs` returns on this worktree. */
  ghost predicate Builds<H>(root: Tree, required: set<Path>, main: Path, policy: Policy, rules: Rules<H>,
                            inputs: map<Path, CaptureInput<H>>)
    requires root.Dir?
  {
    && rules.valid(policy) && main in required && Expands(root, policy)
    && (forall path :: path in inputs <==> Listed(root, required, policy, path))
    && forall path :: path in inputs ==>
         rules.portable(path) && RightInput(root, required, main, policy, rules, path, inputs[path])
  }

  /** Some listed input cannot be captured. */
  ghost predicate Refused<H>(root: Tree, required: set<Path>, policy: Policy, rules: Rules<H>, path: Path) {
    Listed(root, required, policy, path) && (!rules.portable(path) || (path in required && !IsFile(root, path)))
  }

  /**
   * Builds the inputs; without a cancellation it fails exactly when the policy, the main document,
   * the expansion or one of the listed inputs forbids it.
   */
  method BuildCaptureInputs<H>(root: Tree, dependencies: seq<Path>, main: Path, policy: Policy,
                               rules: Rules<H>, armed: bool)
    returns (inputs: map<Path, CaptureInput<H>>, failed: bool)
    requires root.Dir? && DistinctNames(root)
    ensures !failed ==> Builds(root, AsSet(dependencies), main, policy, rules, inputs)
    ensures failed && !armed ==>
              || !rules.valid(policy) || main !in dependencies || !Expands(root, policy)
              || exists path :: Refused(root, AsSet(dependencies), policy, rules, path)
  {
    inputs := map[];
    var stop := Poll(armed);
    if stop || !rules.valid(policy) { return inputs, true; }
    var required := AsSet(dependencies);
    if main !in required { return inputs, true; }
    var included, failure := CollectAlwaysIncludedFiles(root, policy, armed);
    if failure.Some? { return inputs, true; }
    var all := included + required + {MANIFEST_PATH};
    var left := all;
    while left != {}
      invariant left <= all && inputs.Keys == all - left
      invariant forall path :: path in inputs ==>
                  rules.portable(path) && RightInput(root, required, main, policy, rules, path, inputs[path])
    {
      stop := Poll(armed);
      if stop { return inputs, true; }
      var path :| path in left;
      if path in required {
        var content := ReadFile(root, path);
        if content.None? {
          assert Refused(root, required, policy, rules, path);
          return inputs, true;
        }
        var ignored := CheckIgnored(policy, path);
        if !rules.portable(path) {
          assert Refused(root, required, policy, rules, path);
          return inputs, true;
        }
        inputs := inputs[path := Replay(rules.digest(content.value), Stored(main, ignored, path))];
      } else {
        if !rules.portable(path) {
          assert Refused(root, required, policy, rules, path);
          return inputs, true;
        }
        inputs := inputs[path := Explicit];
      }
      left := left - {path};
    }
    failed := false;
  }

  /**
   * The inputs are project.json, the compiler's dependencies and the selected files. The main document and project.json
   * are stored whatever the policy says, another dependency exactly when no ignore pattern matches it.
   */
  lemma InputsExact<H>(root: Tree, required: set<Path>, main: Path, policy: Policy, rules: Rules<H>,
                       inputs: map<Path, CaptureInput<H>>)
    requires root.Dir? && Builds(root, required, main, policy, rules, inputs)
    ensures forall path :: path in inputs <==> path == ["project.json"] || path in required || Selected(root, policy, path)
    ensures forall path :: path in inputs ==> (inputs[path].Replay? <==> path in required)
    ensures main in inputs && inputs[main].Replay? && inputs[main].stored
    ensures inputs[["project.json"]].Explicit? || inputs[["project.json"]].stored
    ensures forall path :: path in required && path != main && path != ["project.json"] ==>
              (inputs[path].stored <==> forall i :: 0 <= i < |policy.ignored| ==> !PatternMatches(policy.ignored[i], path))
    ensures forall path :: path in required ==>
              exists content :: FileAt(root, path, content) && inputs[path].presealHash == rules.digest(content)
  {
    hide Expands, Selected, FileAt, PatternMatches;
    forall path | path in inputs ensures RightInput(root, required, main, policy, rules, path, inputs[path]) { }
  }

  /** Inputs can be built exactly when no reason against it is there. */
  lemma BuildsExactly<H(!new)>(root: Tree, required: set<Path>, main: Path, policy: Policy, rules: Rules<H>)
    requires root.Dir?
    ensures (exists inputs :: Builds(root, required, main, policy, rules, inputs)) ==>
              forall path :: !Refused(root, required, policy, rules, path)
    ensures forall path :: Refused(root, required, policy, rules, path) <==>
              && (path == ["project.json"] || path in required || Selected(root, policy, path))
              && (!rules.portable(path) || (path in required && !IsFile(root, path)))
  {
    hide Expands, Selected, FileAt;
    if inputs :| Builds(root, required, main, policy, rules, inputs) {
      forall path ensures !Refused(root, required, policy, rules, path) {
        if path in inputs { assert RightInput(root, required, main, policy, rules, path, inputs[path]); }
      }
    }
  }

  // ---- records ----

  ghost predicate Records<H>(root: Tree, rules: Rules<H>, file: FileRecord<H>) {
    exists content :: FileAt(root, file.path, content)
                      && |content| == file.logicalBytes && rules.digest(content) == file.contentHash
  }

  /** Sealing stores one record for each input, from a regular file of the worktree. */
  ghost predicate Sealed<H>(root: Tree, rules: Rules<H>, inputs: map<Path, CaptureInput<H>>, files: seq<FileRecord<H>>) {
    && (forall i :: 0 <= i < |files| ==>
          && files[i].path in inputs
          && files[i].stored == inputs[files[i].path].IsStored()
          && Records(root, rules, files[i]))
    && (forall path :: path in inputs ==> HasRecord(files, path))
    && DistinctPaths(files)
  }

  ghost predicate HasRecord<H>(files: seq<FileRecord<H>>, path: Path) {
    exists i :: 0 <= i < |files| && files[i].path == path
  }

  ghost predicate DistinctPaths<H>(files: seq<FileRecord<H>>) {
    forall i, j :: 0 <= i < j < |files| ==> files[i].path != files[j].path
  }

  /** What every published manifest satisfies with respect to its replayed inputs. */
  ghost predicate WellRecorded<H>(files: seq<FileRecord<H>>, replayed: set<Path>, rules: Rules<H>) {
    && DistinctPaths(files)
    && (forall path :: path in replayed ==> HasRecord(files, path))
    && (forall i :: 0 <= i < |files| ==> rules.portable(files[i].path))
    && (forall i :: 0 <= i < |files| && files[i].path !in replayed ==> files[i].stored)
  }

  /** What `manifest_matches_worktree` tests. */
  ghost predicate Unchanged<H>(root: Tree, main: Path, policy: Policy, replayed: set<Path>, files: seq<FileRecord<H>>, rules: Rules<H>)
    requires root.Dir?
  {
    && Expands(root, policy)
    && SameExplicit(root, policy, replayed, files)
    && forall i :: 0 <= i < |files| ==> RecordHolds(root, main, policy, replayed, files[i], rules)
  }

  /** The policy selects exactly the recorded paths that the replay did not read. */
  ghost predicate SameExplicit<H>(root: Tree, policy: Policy, replayed: set<Path>, files: seq<FileRecord<H>>) {
    forall path :: HasRecord(files, path) && path !in replayed
                   <==> (Selected(root, policy, path) || path == MANIFEST_PATH) && path !in replayed
  }

  ghost predicate RecordHolds<H>(root: Tree, main: Path, policy: Policy, replayed: set<Path>, file: FileRecord<H>, rules: Rules<H>) {
    && (file.path in replayed ==> file.stored == Stored(main, policy.IsIgnored(file.path), file.path))
    && Records(root, rules, file)
  }

  /** In an unchanged worktree the recorded flags are those that the policy calls for now. */
  lemma UnchangedStored<H>(root: Tree, main: Path, policy: Policy, replayed: set<Path>, files: seq<FileRecord<H>>, rules: Rules<H>, i: nat)
    requires root.Dir? && Unchanged(root, main, policy, replayed, files, rules)
    requires i < |files| && files[i].path in replayed
    ensures files[i].path == main || files[i].path == ["project.json"] ==> files[i].stored
    ensures files[i].path != main && files[i].path != ["project.json"] ==>
              (files[i].stored <==> forall k :: 0 <= k < |policy.ignored| ==> !PatternMatches(policy.ignored[k], files[i].path))
  {
    hide Expands, SameExplicit, Records, PatternMatches;
    assert RecordHolds(root, main, policy, replayed, files[i], rules);
  }

  method WorktreeFileMatches<H(==)>(root: Tree, file: FileRecord<H>, rules: Rules<H>) returns (matches: bool)
    requires DistinctNames(root)
    ensures matches <==> Records(root, rules, file)
  {
    var content := ReadFile(root, file.path);
    if content.None? { return false; }
    matches := |content.value| == file.logicalBytes && rules.digest(content.value) == file.contentHash;
    if Records(root, rules, file) {
      var recorded :| FileAt(root, file.path, recorded)
                      && |recorded| == file.logicalBytes && rules.digest(recorded) == file.contentHash;
      FileAtUnique(root, file.path, recorded, content.value);
    }
  }

  /** The recorded paths that the replay did not read. */
  function RecordedExplicit<H(==)>(files: seq<FileRecord<H>>, replayed: set<Path>): (paths: set<Path>)
    ensures forall path :: path in paths <==> HasRecord(files, path) && path !in replayed
  {
    if files == [] then {}
    else
      var last := files[|files| - 1].path;
      var rest := RecordedExplicit(files[..|files| - 1], replayed);
      assert forall path :: HasRecord(files, path) <==> HasRecord(files[..|files| - 1], path) || path == last;
      if last in replayed then rest else rest + {last}
  }

  method ExplicitInputsMatch<H(==)>(root: Tree, policy: Policy, replayed: set<Path>, files: seq<FileRecord<H>>, armed: bool)
    returns (same: bool)
    requires root.Dir?
    ensures same ==> Expands(root, policy) && SameExplicit(root, policy, replayed, files)
    ensures !same && !armed ==> !(Expands(root, policy) && SameExplicit(root, policy, replayed, files))
  {
    var recordedExplicit := RecordedExplicit(files, replayed);
    var included, failure := CollectAlwaysIncludedFiles(root, policy, armed);
    if failure.Some? { return false; }
    var currentExplicit := set path | path in included + {MANIFEST_PATH} && path !in replayed;
    same := currentExplicit == recordedExplicit;
    if !same {
      var path :| (path in currentExplicit) != (path in recordedExplicit);
      assert !SameExplicit(root, policy, replayed, files);
    }
  }

  method RecordedFileMatches<H(==)>(root: Tree, main: Path, policy: Policy, replayed: set<Path>, file: FileRecord<H>,
                                    rules: Rules<H>, armed: bool)
    returns (holds: bool)
    requires DistinctNames(root)
    ensures holds ==> RecordHolds(root, main, policy, replayed, file, rules)
    ensures !holds && !armed ==> !RecordHolds(root, main, policy, replayed, file, rules)
  {
    var stop := Poll(armed);
    if stop { return false; }
    if file.path in replayed {
      var ignored := CheckIgnored(policy, file.path);
      if Stored(main, ignored, file.path) != file.stored { return false; }
    }
    holds := WorktreeFileMatches(root, file, rules);
  }

  method ManifestMatchesWorktree<H(==)>(root: Tree, main: Path, policy: Policy, replayed: set<Path>,
                                        files: seq<FileRecord<H>>, rules: Rules<H>, armed: bool)
    returns (same: bool)
    requires root.Dir? && DistinctNames(root)
    ensures same ==> Unchanged(root, main, policy, replayed, files, rules)
    ensures !same && !armed ==> !Unchanged(root, main, policy, replayed, files, rules)
  {
    hide Expands, SameExplicit, RecordHolds, DistinctNames;
    same := ExplicitInputsMatch(root, policy, replayed, files, armed);
    if !same { return; }
    for i := 0 to |files|
      invariant forall j :: 0 <= j < i ==> RecordHolds(root, main, policy, replayed, files[j], rules)
    {
      var holds := RecordedFileMatches(root, main, policy, replayed, files[i], rules, armed);
      if !holds { return false; }
    }
    return true;
  }

  // ---- the fast test agrees with building and sealing again ----

  /** If the fast test says unchanged, building on this worktree yields the recorded paths and flags, and sealing the recorded files. */
  lemma UnchangedBuilds<H>(root: Tree, main: Path, policy: Policy, replayed: set<Path>, files: seq<FileRecord<H>>, rules: Rules<H>)
    returns (inputs: map<Path, CaptureInput<H>>)
    requires root.Dir? && rules.valid(policy) && main in replayed
    requires WellRecorded(files, replayed, rules)
    requires Unchanged(root, main, policy, replayed, files, rules)
    ensures Builds(root, replayed, main, policy, rules, inputs) && Sealed(root, rules, inputs, files)
  {
    hide Expands, Selected, Policy.IsIgnored, FileAt;
    var paths := set file | file in files :: file.path;
    forall path ensures path in paths <==> HasRecord(files, path) {
      if path in paths {
        var file :| file in files && file.path == path;
        var i :| 0 <= i < |files| && files[i] == file;
      }
    }
    inputs := map path | path in paths :: InputFor(root, main, policy, replayed, rules, path);
    forall i | 0 <= i < |files|
      ensures rules.portable(files[i].path)
      ensures RightInput(root, replayed, main, policy, rules, files[i].path, inputs[files[i].path])
      ensures files[i].stored == inputs[files[i].path].IsStored() && Records(root, rules, files[i])
    {
      assert RecordHolds(root, main, policy, replayed, files[i], rules);
    }
    forall path ensures path in inputs <==> Listed(root, replayed, policy, path) {
    }
  }

  ghost function InputFor<H>(root: Tree, main: Path, policy: Policy, replayed: set<Path>, rules: Rules<H>, path: Path): (input: CaptureInput<H>)
    ensures IsFile(root, path) || path !in replayed ==> RightInput(root, replayed, main, policy, rules, path, input)
  {
    if path in replayed && IsFile(root, path) then
      var content :| FileAt(root, path, content);
      Replay(rules.digest(content), Stored(main, policy.IsIgnored(path), path))
    else Explicit
  }

  /** If building and sealing again would give the recorded files, the fast test says unchanged. */
  lemma BuildsUnchanged<H>(root: Tree, main: Path, policy: Policy, replayed: set<Path>, files: seq<FileRecord<H>>, rules: Rules<H>,
                           inputs: map<Path, CaptureInput<H>>)
    requires root.Dir?
    requires Builds(root, replayed, main, policy, rules, inputs) && Sealed(root, rules, inputs, files)
    ensures Unchanged(root, main, policy, replayed, files, rules) && WellRecorded(files, replayed, rules)
  {
    forall path ensures HasRecord(files, path) <==> path in inputs {
    }
    forall i | 0 <= i < |files|
      ensures RecordHolds(root, main, policy, replayed, files[i], rules)
      ensures files[i].path !in replayed ==> files[i].stored
    {
      assert RightInput(root, replayed, main, policy, rules, files[i].path, inputs[files[i].path]);
    }
  }

  /**
   * The equivalence: for a valid policy and the same replayed inputs, the fast test says unchanged
   * exactly when the slow builder, sealed, would reproduce the recorded manifest.
   */
  lemma FastCheckExact<H>(root: Tree, main: Path, policy: Policy, replayed: set<Path>, files: seq<FileRecord<H>>, rules: Rules<H>)
    requires root.Dir? && rules.valid(policy) && main in replayed
    requires WellRecorded(files, replayed, rules)
    ensures Unchanged(root, main, policy, replayed, files, rules) <==>
            exists inputs :: Builds(root, replayed, main, policy, rules, inputs) && Sealed(root, rules, inputs, files)
  {
    if Unchanged(root, main, policy, replayed, files, rules) {
      var inputs := UnchangedBuilds(root, main, policy, replayed, files, rules);
    }
    if exists inputs :: Builds(root, replayed, main, policy, rules, inputs) && Sealed(root, rules, inputs, files) {
      var inputs :| Builds(root, replayed, main, policy, rules, inputs) && Sealed(root, rules, inputs, files);
      BuildsUnchanged(root, main, policy, replayed, files, rules, inputs);
    }
  }

  /** At every recorded path an unchanged worktree holds a file as long as the sealed one and with the same digest. */
  lemma UnchangedKeepsContents<H(!new)>(before: Tree, now: Tree, main: Path, policy: Policy, replayed: set<Path>,
                                        files: seq<FileRecord<H>>, rules: Rules<H>, inputs: map<Path, CaptureInput<H>>, path: Path, content: Bytes)
    requires now.Dir? && DistinctNames(before)
    requires Sealed(before, rules, inputs, files) && path in inputs && FileAt(before, path, content)
    requires Unchanged(now, main, policy, replayed, files, rules)
    ensures exists current :: FileAt(now, path, current) && |current| == |content| && rules.digest(current) == rules.digest(content)
    ensures FileAt(now, path, content)
            || exists other :: FileAt(now, path, other) && other != content && rules.digest(other) == rules.digest(content)
  {
    hide FileAt, DistinctNames, Expands, SameExplicit;
    assert HasRecord(files, path);
    var i :| 0 <= i < |files| && files[i].path == path;
    assert RecordHolds(now, main, policy, replayed, files[i], rules);
    var sealed :| FileAt(before, path, sealed) && |sealed| == files[i].logicalBytes && rules.digest(sealed) == files[i].contentHash;
    var current :| FileAt(now, path, current) && |current| == files[i].logicalBytes && rules.digest(current) == files[i].contentHash;
    FileAtUnique(before, path, sealed, content);
  }
}
