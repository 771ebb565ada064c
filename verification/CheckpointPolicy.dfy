/** Checkpoint policies: which project files are always captured and which are not stored. */
module CheckpointPolicy {
  import opened Text
  import opened Glob

  /** A portable project path is the list of its components. */
  type Path = seq<string>

  datatype Policy = Policy(alwaysInclude: seq<string>, ignored: seq<string>)
  {
    ghost predicate IsAlwaysIncluded(path: Path) {
      exists i :: 0 <= i < |alwaysInclude| && PatternMatches(alwaysInclude[i], path)
    }

    ghost predicate IsIgnored(path: Path) {
      exists i :: 0 <= i < |ignored| && PatternMatches(ignored[i], path)
    }

    /** `validate`; `isNfc` stands for the Unicode normal form test. */
    ghost predicate Valid(isNfc: string -> bool) {
      && (forall i :: 0 <= i < |alwaysInclude| ==> ValidPattern(alwaysInclude[i], false, isNfc))
      && (forall i :: 0 <= i < |ignored| ==> ValidPattern(ignored[i], true, isNfc))
    }
  }

  const MANIFEST: string := "project.json"

  predicate HasWildcard(pattern: string) { '*' in pattern || '?' in pattern }

  /** `checkpoint_pattern_matches`: a literal pattern also covers everything beneath it. */
  ghost predicate PatternMatches(pattern: string, path: Path) {
    var segments := Split(pattern, '/');
    || (&& !HasWildcard(pattern)
        && |path| >= |segments|
        && forall i :: 0 <= i < |segments| ==> Fold(segments[i]) == Fold(path[i]))
    || (|segments| == |path| && forall i :: 0 <= i < |segments| ==> Matches(segments[i], path[i]))
  }

  /** `checkpoint_pattern_matches` as it runs. */
  method CheckpointPatternMatches(pattern: string, path: Path) returns (matched: bool)
    ensures matched == PatternMatches(pattern, path)
  {
    var segments := Split(pattern, '/');
    PatternMatchesSegments(pattern, path);
    if !HasWildcard(pattern) && |path| >= |segments| {
      var i, all := 0, true;
      while i < |segments| && all
        invariant 0 <= i <= |segments|
        invariant all ==> forall j :: 0 <= j < i ==> Fold(segments[j]) == Fold(path[j])
        invariant !all ==> exists j :: 0 <= j < |segments| && Fold(segments[j]) != Fold(path[j])
        decreases |segments| - i, all
      {
        if Fold(segments[i]) != Fold(path[i]) { all := false; } else { i := i + 1; }
      }
      if all { return true; }
    }
    if |segments| != |path| { return false; }
    for i := 0 to |segments|
      invariant forall j :: 0 <= j < i ==> Matches(segments[j], path[j])
    {
      var segmentMatches := WildcardComponentMatches(segments[i], path[i]);
      if !segmentMatches {
        if !HasWildcard(pattern) { LiteralSegment(pattern, i, path[i]); }
        return false;
      }
    }
    return true;
  }

  method CheckIgnored(policy: Policy, path: Path) returns (ignored: bool)
    ensures ignored == policy.IsIgnored(path)
  {
    for i := 0 to |policy.ignored|
      invariant forall j :: 0 <= j < i ==> !PatternMatches(policy.ignored[j], path)
    {
      var matched := CheckpointPatternMatches(policy.ignored[i], path);
      if matched { return true; }
    }
    return false;
  }

  predicate EndsWith(s: string, c: char) { s != [] && s[|s| - 1] == c }

  predicate IsReserved(stem: string) {
    var lower := Fold(stem);
    || lower in {"con", "prn", "aux", "nul"}
    || (|lower| == 4 && lower[..3] in {"com", "lpt"} && '1' <= lower[3] <= '9')
  }

  ghost predicate ValidPattern(pattern: string, protectsManifest: bool, isNfc: string -> bool) {
    var segments := Split(pattern, '/');
    && pattern != []
    && !HasControl(pattern)
    && isNfc(pattern)
    && pattern[0] != '/'
    && (forall c :: c in pattern ==> c !in ['\\', ':', '[', ']', '{', '}'])
    && (forall i :: 0 <= i < |segments| ==> ValidSegment(segments[i]))
    && !(protectsManifest && |segments| == 1 && Matches(segments[0], MANIFEST))
  }

  ghost predicate ValidSegment(segment: string) {
    && segment != [] && segment != "." && segment != ".."
    && !EndsWith(segment, '.') && !EndsWith(segment, ' ')
    && (HasWildcard(Split(segment, '.')[0]) || !IsReserved(Split(segment, '.')[0]))
    && !Matches(segment, ".git") && !Matches(segment, ".oleafly")
  }

  lemma {:induction false} SegmentsKeepCharacters(pattern: string, i: nat, c: char)
    requires i < |Split(pattern, '/')| && c in Split(pattern, '/')[i]
    ensures c in pattern
  {
    if pattern != [] {
      var rest := Split(pattern[1..], '/');
      assert pattern == [pattern[0]] + pattern[1..];
      if pattern[0] == '/' {
        if i > 0 { SegmentsKeepCharacters(pattern[1..], i - 1, c); }
      } else if i > 0 || c in rest[0] {
        SegmentsKeepCharacters(pattern[1..], i, c);
      }
    }
  }

  /** Segment by segment, a literal pattern uses the glob matcher and case-blind equality alike. */
  lemma LiteralSegment(pattern: string, i: nat, name: string)
    requires !HasWildcard(pattern) && i < |Split(pattern, '/')|
    ensures Matches(Split(pattern, '/')[i], name) <==> Fold(Split(pattern, '/')[i]) == Fold(name)
  {
    var segment := Split(pattern, '/')[i];
    if '*' in segment { SegmentsKeepCharacters(pattern, i, '*'); }
    if '?' in segment { SegmentsKeepCharacters(pattern, i, '?'); }
    LiteralMatches(segment, name);
  }

  /** The pattern test in one form: the segments match in order, and only a literal pattern may leave components over. */
  lemma PatternMatchesSegments(pattern: string, path: Path)
    ensures PatternMatches(pattern, path) <==>
            var segments := Split(pattern, '/');
            && (if HasWildcard(pattern) then |path| == |segments| else |path| >= |segments|)
            && forall i :: 0 <= i < |segments| ==> Matches(segments[i], path[i])
  {
    var segments := Split(pattern, '/');
    if !HasWildcard(pattern) && |path| >= |segments| {
      forall i | 0 <= i < |segments|
        ensures Matches(segments[i], path[i]) <==> Fold(segments[i]) == Fold(path[i])
      {
        LiteralSegment(pattern, i, path[i]);
      }
    }
  }

  /** A valid policy never leaves the project manifest unstored. */
  lemma ManifestNeverIgnored(policy: Policy, isNfc: string -> bool)
    requires policy.Valid(isNfc)
    ensures !policy.IsIgnored([MANIFEST])
  {
    forall i | 0 <= i < |policy.ignored|
      ensures !PatternMatches(policy.ignored[i], [MANIFEST])
    {
      assert ValidPattern(policy.ignored[i], true, isNfc);
      PatternMatchesSegments(policy.ignored[i], [MANIFEST]);
    }
  }

  // ---- what validation asks of a policy, character by character ----

  /** A name that Windows reserves for a device. */
  predicate DeviceName(stem: string) {
    || CaseVariants(stem, "con") || CaseVariants(stem, "prn") || CaseVariants(stem, "aux") || CaseVariants(stem, "nul")
    || (|stem| == 4 && (CaseVariants(stem[..3], "com") || CaseVariants(stem[..3], "lpt")) && '1' <= stem[3] <= '9')
  }

  lemma DeviceExact(stem: string)
    ensures IsReserved(stem) <==> DeviceName(stem)
  {
    FoldExact(stem, "con");
    FoldExact(stem, "prn");
    FoldExact(stem, "aux");
    FoldExact(stem, "nul");
    LowerCase();
    if |stem| == 4 {
      FoldExact(stem[..3], "com");
      FoldExact(stem[..3], "lpt");
      assert Fold(stem)[..3] == Fold(stem[..3]);
      assert FoldChar(stem[3]) == Fold(stem)[3];
    }
    hide CaseVariants, Fold;
  }

  lemma LowerCase()
    ensures Fold("con") == "con" && Fold("prn") == "prn" && Fold("aux") == "aux" && Fold("nul") == "nul"
    ensures Fold("com") == "com" && Fold("lpt") == "lpt"
  {
  }

  /** A component that is a plain file name on every system: not empty, no dot or space at its end, no device in front of a dot. */
  ghost predicate PlainSegment(segment: string) {
    && segment != [] && segment[|segment| - 1] !in {'.', ' '}
    && (forall k :: IsPiece(segment, '.', 0, k) ==> '*' in segment[..k] || '?' in segment[..k] || !DeviceName(segment[..k]))
    && !Matches(segment, ".git") && !Matches(segment, ".oleafly")
  }

  lemma SegmentExact(segment: string)
    ensures ValidSegment(segment) <==> PlainSegment(segment)
  {
    hide Matches;
    SplitPieces(segment, '.', []);
    var first :| IsPiece(segment, '.', 0, first) && Split(segment, '.')[0] == segment[0..first];
    assert forall k :: IsPiece(segment, '.', 0, k) ==> k == first;
    assert segment[0..first] == segment[..first];
    DeviceExact(segment[..first]);
    hide IsReserved, DeviceName, Split;
  }

  /** A pattern of portable components with a slash between any two. */
  ghost predicate PlainPattern(pattern: string, isNfc: string -> bool) {
    && isNfc(pattern)
    && (forall k :: 0 <= k < |pattern| ==>
          && pattern[k] as int >= 0x20 && !(0x7F <= pattern[k] as int <= 0x9F)
          && pattern[k] !in ['\\', ':', '[', ']', '{', '}'])
    && forall i, j :: IsPiece(pattern, '/', i, j) ==> PlainSegment(pattern[i..j])
  }

  lemma PatternExact(pattern: string, protectsManifest: bool, isNfc: string -> bool)
    ensures ValidPattern(pattern, protectsManifest, isNfc) <==>
            PlainPattern(pattern, isNfc) && !(protectsManifest && '/' !in pattern && Matches(pattern, "project.json"))
  {
    hide Matches, PlainSegment, ValidSegment;
    var segments := Split(pattern, '/');
    if forall n :: 0 <= n < |segments| ==> ValidSegment(segments[n]) {
      forall i, j | IsPiece(pattern, '/', i, j) ensures PlainSegment(pattern[i..j]) {
        assert PieceFrom(pattern, '/', 0, pattern[i..j]);
        PieceIs(pattern, '/', pattern[i..j]);
        SegmentExact(pattern[i..j]);
      }
    }
    if forall i, j :: IsPiece(pattern, '/', i, j) ==> PlainSegment(pattern[i..j]) {
      forall n | 0 <= n < |segments| ensures ValidSegment(segments[n]) {
        PieceIs(pattern, '/', segments[n]);
        var i, j :| 0 <= i && IsPiece(pattern, '/', i, j) && segments[n] == pattern[i..j];
        SegmentExact(segments[n]);
      }
    }
    OneSegment(pattern);
    NotAbsolute(pattern);
    hide Split, IsPiece;
  }

  lemma OneSegment(pattern: string)
    ensures |Split(pattern, '/')| == 1 <==> '/' !in pattern
    ensures '/' !in pattern ==> Split(pattern, '/')[0] == pattern
  {
    if '/' !in pattern {
      SplitPiece(pattern, '/');
    } else {
      var k :| 0 <= k < |pattern| && pattern[k] == '/';
      SplitConcat(pattern[..k], '/', pattern[k + 1..]);
      assert pattern == pattern[..k] + ['/'] + pattern[k + 1..];
    }
  }

  /** An empty pattern, and one that starts at the root, have an empty component in front. */
  lemma NotAbsolute(pattern: string)
    ensures pattern == [] || pattern[0] == '/' ==> IsPiece(pattern, '/', 0, 0) && !PlainSegment(pattern[0..0])
  {
  }

  /**
   * A policy is valid exactly when its patterns are plain: printable and normalised, of components that are portable file
   * names and match neither .git nor .oleafly; and no ignore pattern names project.json.
   */
  lemma ValidExact(policy: Policy, isNfc: string -> bool)
    ensures policy.Valid(isNfc) <==>
            && (forall i :: 0 <= i < |policy.alwaysInclude| ==> PlainPattern(policy.alwaysInclude[i], isNfc))
            && (forall i :: 0 <= i < |policy.ignored| ==>
                  PlainPattern(policy.ignored[i], isNfc)
                  && !('/' !in policy.ignored[i] && Matches(policy.ignored[i], "project.json")))
  {
    hide PlainPattern, ValidPattern, Matches;
    forall i | 0 <= i < |policy.alwaysInclude| { PatternExact(policy.alwaysInclude[i], false, isNfc); }
    forall i | 0 <= i < |policy.ignored| { PatternExact(policy.ignored[i], true, isNfc); }
  }

  predicate IsProtectedData(name: string) { Fold(name) in {".git", ".oleafly"} }

  /**
   * No segment of a valid pattern matches version-control or application data, whatever the letter case: where a pattern
   * accepts a path through such a component, the pattern is literal and the component lies beneath all of its segments.
   */
  lemma ProtectedOnlyBeneath(pattern: string, protectsManifest: bool, isNfc: string -> bool, path: Path, k: nat)
    requires ValidPattern(pattern, protectsManifest, isNfc) && PatternMatches(pattern, path)
    requires k < |path| && IsProtectedData(path[k])
    ensures !HasWildcard(pattern) && |Split(pattern, '/')| <= k
  {
    PatternMatchesSegments(pattern, path);
    var segments := Split(pattern, '/');
    if k < |segments| {
      FoldIdempotent(path[k]);
    }
  }

  /** At the root of the project, a valid policy never captures version-control or application data. */
  lemma ProtectedNeverIncluded(policy: Policy, isNfc: string -> bool, name: string, rest: Path)
    requires policy.Valid(isNfc) && Fold(name) in {".git", ".oleafly"}
    ensures !policy.IsAlwaysIncluded([name] + rest)
  {
    forall i | 0 <= i < |policy.alwaysInclude|
      ensures !PatternMatches(policy.alwaysInclude[i], [name] + rest)
    {
      var segment := Split(policy.alwaysInclude[i], '/')[0];
      assert ValidPattern(policy.alwaysInclude[i], false, isNfc) && ValidSegment(segment);
      PatternMatchesSegments(policy.alwaysInclude[i], [name] + rest);
      FoldIdempotent(name);
      assert Matches(segment, name) <==> Matches(segment, Fold(name));
    }
  }
}
