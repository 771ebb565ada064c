/** The policy glob matcher: one path component against one pattern segment. */
module Glob {
  import opened Text
  import opened Wrappers

  /** What a wildcard pattern denotes: `one` stands for any character, `many` for any run. */
  ghost predicate Denotes(pattern: string, candidate: string, many: char, one: char) {
    if pattern == [] then candidate == []
    else if pattern[0] == many then
      exists k :: 0 <= k <= |candidate| && Denotes(pattern[1..], candidate[k..], many, one)
    else
      && candidate != []
      && (pattern[0] == one || pattern[0] == candidate[0])
      && Denotes(pattern[1..], candidate[1..], many, one)
  }

  ghost predicate GlobDenotes(pattern: string, candidate: string) {
    Denotes(Fold(pattern), Fold(candidate), '*', '?')
  }

  /** Where the backtracking scan stands; `star == -1` before the first star. */
  datatype Cursor = Cursor(p: nat, c: nat, star: int, starC: nat)

  ghost predicate InRange(pat: string, cand: string, at: Cursor) {
    && at.p <= |pat| && at.c <= |cand| && at.starC <= at.c
    && -1 <= at.star < at.p
    && (at.star >= 0 ==> pat[at.star] == '*' && at.p - at.star - 1 == at.c - at.starC)
    && (at.star == -1 ==> at.p == at.c && at.starC == 0)
  }

  predicate OnlyStars(pat: string) {
    forall i :: 0 <= i < |pat| ==> pat[i] == '*'
  }

  /** The scan loop as a function: literal or `?` first, then a star, then backtracking to the latest star. */
  ghost predicate Scan(pat: string, cand: string, at: Cursor)
    requires InRange(pat, cand, at)
    decreases |pat| - at.star, |cand| - at.starC, |cand| - at.c
  {
    if at.c == |cand| then OnlyStars(pat[at.p..])
    else if at.p < |pat| && (pat[at.p] == '?' || pat[at.p] == cand[at.c]) then
      Scan(pat, cand, at.(p := at.p + 1, c := at.c + 1))
    else if at.p < |pat| && pat[at.p] == '*' then
      Scan(pat, cand, Cursor(at.p + 1, at.c, at.p, at.c))
    else if at.star >= 0 then
      Scan(pat, cand, Cursor(at.star + 1, at.starC + 1, at.star, at.starC + 1))
    else false
  }

  /** What `wildcard_component_matches` computes. */
  ghost predicate Matches(pattern: string, candidate: string) {
    Scan(Fold(pattern), Fold(candidate), Cursor(0, 0, -1, 0))
  }

  /** Where the scan goes from a cursor; nowhere when it gives up. */
  ghost function Onward(pat: string, cand: string, at: Cursor): (next: Option<Cursor>)
    requires InRange(pat, cand, at) && at.c < |cand|
    ensures next.Some? ==> InRange(pat, cand, next.value) && Scan(pat, cand, at) == Scan(pat, cand, next.value)
    ensures next.None? ==> !Scan(pat, cand, at)
  {
    if at.p < |pat| && (pat[at.p] == '?' || pat[at.p] == cand[at.c]) then Some(at.(p := at.p + 1, c := at.c + 1))
    else if at.p < |pat| && pat[at.p] == '*' then Some(Cursor(at.p + 1, at.c, at.p, at.c))
    else if at.star >= 0 then Some(Cursor(at.star + 1, at.starC + 1, at.star, at.starC + 1))
    else None
  }

  method WildcardComponentMatches(pattern: string, candidate: string) returns (matched: bool)
    ensures matched == Matches(pattern, candidate)
  {
    var pat := Fold(pattern);
    var cand := Fold(candidate);
    matched := ScanLoop(pat, cand);
  }

  /** The loops of `wildcard_component_matches`, over folded strings. */
  method ScanLoop(pat: string, cand: string) returns (matched: bool)
    ensures matched == Scan(pat, cand, Cursor(0, 0, -1, 0))
  {
    hide Scan;
    var patternIndex: nat, candidateIndex: nat := 0, 0;
    var starIndex: int, starCandidateIndex: nat := -1, 0;
    while candidateIndex < |cand|
      invariant InRange(pat, cand, Cursor(patternIndex, candidateIndex, starIndex, starCandidateIndex))
      invariant Scan(pat, cand, Cursor(patternIndex, candidateIndex, starIndex, starCandidateIndex))
             == Scan(pat, cand, Cursor(0, 0, -1, 0))
      decreases |pat| - starIndex, |cand| - starCandidateIndex, |cand| - candidateIndex
    {
      ghost var next := Onward(pat, cand, Cursor(patternIndex, candidateIndex, starIndex, starCandidateIndex));
      if patternIndex < |pat| && (pat[patternIndex] == '?' || pat[patternIndex] == cand[candidateIndex]) {
        patternIndex := patternIndex + 1;
        candidateIndex := candidateIndex + 1;
      } else if patternIndex < |pat| && pat[patternIndex] == '*' {
        starIndex := patternIndex;
        patternIndex := patternIndex + 1;
        starCandidateIndex := candidateIndex;
      } else if starIndex >= 0 {
        patternIndex := starIndex + 1;
        starCandidateIndex := starCandidateIndex + 1;
        candidateIndex := starCandidateIndex;
      } else {
        return false;
      }
      assert next == Some(Cursor(patternIndex, candidateIndex, starIndex, starCandidateIndex));
    }
    ScanEnd(pat, cand, Cursor(patternIndex, candidateIndex, starIndex, starCandidateIndex));
    ghost var from := patternIndex;
    while patternIndex < |pat| && pat[patternIndex] == '*'
      invariant from <= patternIndex <= |pat|
      invariant forall i :: from <= i < patternIndex ==> pat[i] == '*'
    {
      patternIndex := patternIndex + 1;
    }
    OnlyStarsTail(pat, from, patternIndex);
    return patternIndex == |pat|;
  }

  lemma ScanEnd(pat: string, cand: string, at: Cursor)
    requires InRange(pat, cand, at) && at.c == |cand|
    ensures Scan(pat, cand, at) == OnlyStars(pat[at.p..])
  {
  }

  lemma OnlyStarsTail(pat: string, from: nat, to: nat)
    requires from <= to <= |pat| && (forall i :: from <= i < to ==> pat[i] == '*') && (to < |pat| ==> pat[to] != '*')
    ensures OnlyStars(pat[from..]) <==> to == |pat|
  {
    assert to < |pat| ==> pat[from..][to - from] != '*';
  }

  /** Only a pattern of stars denotes the empty string, and it does. */
  lemma {:induction false} DenotesEmpty(pat: string)
    ensures Denotes(pat, [], '*', '?') <==> OnlyStars(pat)
  {
    if pat != [] {
      DenotesEmpty(pat[1..]);
      if pat[0] == '*' {
        var none: string := [];
        assert none[0..] == none;
        assert OnlyStars(pat) <==> OnlyStars(pat[1..]) by {
          assert forall i :: 0 < i < |pat| ==> pat[i] == pat[1..][i - 1];
        }
      }
    }
  }

  /** What is left of the pattern denotes what is left of the candidate. */
  ghost predicate Rest(pat: string, cand: string, p: int, c: int) {
    0 <= p <= |pat| && 0 <= c <= |cand| && Denotes(pat[p..], cand[c..], '*', '?')
  }

  /** A pattern that starts with a star also denotes every extension to the left. */
  lemma StarAbsorbs(pat: string, cand: string, p: nat, i: nat, j: nat)
    requires p < |pat| && pat[p] == '*' && i <= j
    requires Rest(pat, cand, p, j)
    ensures Rest(pat, cand, p, i)
  {
    var k :| 0 <= k <= |cand[j..]| && Denotes(pat[p..][1..], cand[j..][k..], '*', '?');
    assert cand[i..][j - i + k..] == cand[j..][k..];
  }

  /** Consuming a block of characters without stars. */
  lemma {:induction false} BlockConsumed(pat: string, cand: string, p: nat, q: nat, c: nat)
    requires p <= q <= |pat| && c <= |cand|
    requires forall i :: p <= i < q ==> pat[i] != '*'
    requires Rest(pat, cand, p, c)
    ensures Rest(pat, cand, q, c + (q - p))
    decreases q - p
  {
    if p < q {
      assert pat[p..][1..] == pat[p + 1..];
      assert cand[c..][1..] == cand[c + 1..];
      BlockConsumed(pat, cand, p + 1, q, c + 1);
    }
  }

  lemma EndDenotes(pat: string, cand: string, p: nat)
    requires p <= |pat|
    ensures Rest(pat, cand, p, |cand|) <==> OnlyStars(pat[p..])
  {
    DenotesEmpty(pat[p..]);
    assert cand[|cand|..] == [];
  }

  /** Whatever the scan accepts from a cursor is denoted by the rest, or by the latest star's rest. */
  lemma {:induction false} ScanSound(pat: string, cand: string, at: Cursor)
    requires InRange(pat, cand, at) && Scan(pat, cand, at)
    ensures Rest(pat, cand, at.p, at.c) || Rest(pat, cand, at.star, at.starC)
    decreases |pat| - at.star, |cand| - at.starC, |cand| - at.c
  {
    hide Denotes;
    if at.c == |cand| {
      EndDenotes(pat, cand, at.p);
    } else if at.p < |pat| && (pat[at.p] == '?' || pat[at.p] == cand[at.c]) {
      ScanSound(pat, cand, at.(p := at.p + 1, c := at.c + 1));
      StepSound(pat, cand, at.p, at.c);
    } else if at.p < |pat| && pat[at.p] == '*' {
      ScanSound(pat, cand, Cursor(at.p + 1, at.c, at.p, at.c));
      StarSound(pat, cand, at.p, at.c);
    } else {
      assert at.star >= 0;
      ScanSound(pat, cand, Cursor(at.star + 1, at.starC + 1, at.star, at.starC + 1));
      StarSound(pat, cand, at.star, at.starC + 1);
      StarAbsorbs(pat, cand, at.star, at.starC, at.starC + 1);
    }
  }

  lemma StepSound(pat: string, cand: string, p: nat, c: nat)
    requires p < |pat| && c < |cand| && (pat[p] == '?' || pat[p] == cand[c])
    ensures Rest(pat, cand, p + 1, c + 1) ==> Rest(pat, cand, p, c)
  {
    assert pat[p..][1..] == pat[p + 1..];
    assert cand[c..][1..] == cand[c + 1..];
    if pat[p] == '*' && Denotes(pat[p + 1..], cand[c + 1..], '*', '?') {
      assert Denotes(pat[p..][1..], cand[c..][1..], '*', '?');
    }
  }

  lemma StarSound(pat: string, cand: string, p: nat, c: nat)
    requires p < |pat| && c <= |cand| && pat[p] == '*'
    ensures Rest(pat, cand, p + 1, c) ==> Rest(pat, cand, p, c)
  {
    assert pat[p..][1..] == pat[p + 1..];
    assert cand[c..][0..] == cand[c..];
  }

  /** No character a star could swallow literally: then forgetting all but the latest star loses no match. */
  predicate NoLiteralStar(pat: string, cand: string) {
    '*' !in pat || '*' !in cand
  }

  lemma {:induction false} ScanComplete(pat: string, cand: string, at: Cursor)
    requires InRange(pat, cand, at) && NoLiteralStar(pat, cand)
    requires forall i :: at.star < i < at.p ==> pat[i] != '*'
    requires Rest(pat, cand, at.p, at.c) || Rest(pat, cand, at.star, at.starC + 1)
    ensures Scan(pat, cand, at)
    decreases |pat| - at.star, |cand| - at.starC, |cand| - at.c
  {
    hide Denotes;
    if at.c == |cand| {
      LastChance(pat, cand, at);
      EndDenotes(pat, cand, at.p);
    } else if at.p < |pat| && (pat[at.p] == '?' || pat[at.p] == cand[at.c]) {
      StepComplete(pat, cand, at);
      ScanComplete(pat, cand, at.(p := at.p + 1, c := at.c + 1));
    } else if at.p < |pat| && pat[at.p] == '*' {
      LatestStarSuffices(pat, cand, at);
      UnfoldStar(pat, cand, at.p, at.c);
      ScanComplete(pat, cand, Cursor(at.p + 1, at.c, at.p, at.c));
    } else {
      Blocked(pat, cand, at);
      UnfoldStar(pat, cand, at.star, at.starC + 1);
      ScanComplete(pat, cand, Cursor(at.star + 1, at.starC + 1, at.star, at.starC + 1));
    }
  }

  lemma StepComplete(pat: string, cand: string, at: Cursor)
    requires InRange(pat, cand, at) && NoLiteralStar(pat, cand)
    requires at.p < |pat| && at.c < |cand| && (pat[at.p] == '?' || pat[at.p] == cand[at.c])
    ensures pat[at.p] != '*'
    ensures Rest(pat, cand, at.p, at.c) ==> Rest(pat, cand, at.p + 1, at.c + 1)
  {
    assert pat[at.p..][1..] == pat[at.p + 1..];
    assert cand[at.c..][1..] == cand[at.c + 1..];
  }

  lemma Blocked(pat: string, cand: string, at: Cursor)
    requires at.p <= |pat| && at.c < |cand|
    requires at.p < |pat| ==> pat[at.p] != '?' && pat[at.p] != cand[at.c] && pat[at.p] != '*'
    ensures !Rest(pat, cand, at.p, at.c)
  {
  }

  /** A match that begins at a star either ends the run there or extends it by one character. */
  lemma UnfoldStar(pat: string, cand: string, p: nat, c: nat)
    requires p < |pat| && c <= |cand| && pat[p] == '*'
    requires Rest(pat, cand, p, c)
    ensures Rest(pat, cand, p + 1, c) || Rest(pat, cand, p, c + 1)
  {
    assert pat[p..][1..] == pat[p + 1..];
    var k :| 0 <= k <= |cand[c..]| && Denotes(pat[p + 1..], cand[c..][k..], '*', '?');
    assert cand[c..][k..] == cand[c + k..];
    if k > 0 {
      assert cand[c + 1..][k - 1..] == cand[c + k..];
    }
  }

  lemma LatestStarSuffices(pat: string, cand: string, at: Cursor)
    requires InRange(pat, cand, at) && at.p < |pat| && pat[at.p] == '*'
    requires forall i :: at.star < i < at.p ==> pat[i] != '*'
    requires Rest(pat, cand, at.p, at.c) || Rest(pat, cand, at.star, at.starC + 1)
    ensures Rest(pat, cand, at.p, at.c)
  {
    if !Rest(pat, cand, at.p, at.c) {
      var k := RunLength(pat, cand, at.star, at.starC + 1);
      BlockConsumed(pat, cand, at.star + 1, at.p, at.starC + 1 + k);
      StarAbsorbs(pat, cand, at.p, at.c, at.c + 1 + k);
    }
  }

  lemma LastChance(pat: string, cand: string, at: Cursor)
    requires InRange(pat, cand, at) && at.c == |cand|
    requires forall i :: at.star < i < at.p ==> pat[i] != '*'
    requires Rest(pat, cand, at.p, at.c) || Rest(pat, cand, at.star, at.starC + 1)
    ensures Rest(pat, cand, at.p, at.c)
  {
    if !Rest(pat, cand, at.p, at.c) {
      var k := RunLength(pat, cand, at.star, at.starC + 1);
      BlockConsumed(pat, cand, at.star + 1, at.p, at.starC + 1 + k);
      assert false;
    }
  }

  lemma RunLength(pat: string, cand: string, p: nat, c: nat) returns (k: nat)
    requires p < |pat| && c <= |cand| && pat[p] == '*'
    requires Rest(pat, cand, p, c)
    ensures Rest(pat, cand, p + 1, c + k)
  {
    assert pat[p..][1..] == pat[p + 1..];
    k :| 0 <= k <= |cand[c..]| && Denotes(pat[p..][1..], cand[c..][k..], '*', '?');
    assert cand[c..][k..] == cand[c + k..];
  }

  /** The matcher never accepts what the pattern does not denote. */
  lemma MatchesSound(pattern: string, candidate: string)
    requires Matches(pattern, candidate)
    ensures GlobDenotes(pattern, candidate)
  {
    var pat, cand := Fold(pattern), Fold(candidate);
    ScanSound(pat, cand, Cursor(0, 0, -1, 0));
    assert pat[0..] == pat && cand[0..] == cand;
  }

  /** Without a star in the candidate (or in the pattern) it accepts everything the pattern denotes. */
  lemma MatchesComplete(pattern: string, candidate: string)
    requires '*' !in pattern || '*' !in candidate
    requires GlobDenotes(pattern, candidate)
    ensures Matches(pattern, candidate)
  {
    var pat, cand := Fold(pattern), Fold(candidate);
    FoldKeepsStars(pattern);
    FoldKeepsStars(candidate);
    assert pat[0..] == pat && cand[0..] == cand;
    ScanComplete(pat, cand, Cursor(0, 0, -1, 0));
  }

  lemma FoldKeepsStars(s: string)
    ensures '*' in Fold(s) <==> '*' in s
  {
    if '*' in s {
      var i :| 0 <= i < |s| && s[i] == '*';
      assert Fold(s)[i] == '*';
    }
    if '*' in Fold(s) {
      var i :| 0 <= i < |s| && Fold(s)[i] == '*';
      assert s[i] == '*';
    }
  }

  /** The matcher agrees with the denotation on every pattern exactly for the candidates without a star. */
  lemma AgreesExactly(candidate: string)
    ensures (forall pattern :: Matches(pattern, candidate) <==> GlobDenotes(pattern, candidate))
            <==> '*' !in candidate
  {
    if '*' !in candidate {
      forall pattern
        ensures Matches(pattern, candidate) <==> GlobDenotes(pattern, candidate)
      {
        if Matches(pattern, candidate) { MatchesSound(pattern, candidate); }
        if GlobDenotes(pattern, candidate) { MatchesComplete(pattern, candidate); }
      }
    } else {
      var pattern := MissedPattern(candidate);
      assert !(Matches(pattern, candidate) <==> GlobDenotes(pattern, candidate));
    }
  }

  function QuestionMarks(n: nat): (r: string)
    ensures |r| == n && forall i :: 0 <= i < n ==> r[i] == '?'
  {
    seq(n, i => '?')
  }

  /** For a candidate with a star, a pattern that denotes it and that the matcher refuses. */
  lemma MissedPattern(candidate: string) returns (pattern: string)
    requires '*' in candidate
    ensures GlobDenotes(pattern, candidate) && !Matches(pattern, candidate)
  {
    FoldKeepsStars(candidate);
    var cand := Fold(candidate);
    var i := FirstStar(cand);
    pattern := cand[..i] + "*" + QuestionMarks(|cand| - i);
    var pat := Fold(pattern);
    assert pat == pattern by { FoldIdempotent(candidate); }
    assert cand[0..] == cand && pat[0..] == pat;
    PlainDenoted(pat, cand, i);
    LiteralRun(pat, cand, 0);
  }

  lemma FirstStar(cand: string) returns (i: nat)
    requires '*' in cand
    ensures i < |cand| && cand[i] == '*' && '*' !in cand[..i]
  {
    i := 0;
    while cand[i] != '*'
      invariant i < |cand| && '*' !in cand[..i] && '*' in cand[i..]
      decreases |cand| - i
    {
      assert cand[..i + 1] == cand[..i] + [cand[i]];
      assert cand[i..] == [cand[i]] + cand[i + 1..];
      i := i + 1;
    }
  }

  lemma {:induction false} PlainDenoted(pat: string, cand: string, i: nat)
    requires i <= |cand| && pat == cand[..i] + "*" + QuestionMarks(|cand| - i)
    requires '*' !in cand[..i]
    ensures Denotes(pat, cand, '*', '?')
  {
    if i == 0 {
      assert pat[1..] == QuestionMarks(|cand|);
      AllQuestionMarks(cand);
      assert cand[0..] == cand;
      assert Denotes(pat[1..], cand[0..], '*', '?');
    } else {
      assert pat[1..] == cand[1..][..i - 1] + "*" + QuestionMarks(|cand[1..]| - (i - 1));
      assert cand[..i][0] == cand[0];
      assert cand[..i] == [cand[0]] + cand[1..][..i - 1];
      PlainDenoted(pat[1..], cand[1..], i - 1);
    }
  }

  lemma {:induction false} AllQuestionMarks(cand: string)
    ensures Denotes(QuestionMarks(|cand|), cand, '*', '?')
  {
    if cand != [] {
      assert QuestionMarks(|cand|)[1..] == QuestionMarks(|cand[1..]|);
      AllQuestionMarks(cand[1..]);
    }
  }

  /** A pattern one longer than the candidate whose every position is taken literally is refused. */
  lemma {:induction false} LiteralRun(pat: string, cand: string, n: nat)
    requires n <= |cand| && |pat| == |cand| + 1 && pat[|cand|] != '*'
    requires forall j :: 0 <= j < |cand| ==> pat[j] == '?' || pat[j] == cand[j]
    ensures !Scan(pat, cand, Cursor(n, n, -1, 0))
    decreases |cand| - n
  {
    if n < |cand| {
      LiteralRun(pat, cand, n + 1);
    } else {
      assert pat[n..][0] != '*';
    }
  }

  /** A segment without wildcards matches exactly its case variants. */
  lemma LiteralMatches(pattern: string, candidate: string)
    requires '*' !in pattern && '?' !in pattern
    ensures Matches(pattern, candidate) <==> Fold(pattern) == Fold(candidate)
  {
    var pat, cand := Fold(pattern), Fold(candidate);
    FoldKeepsStars(pattern);
    assert forall i :: 0 <= i < |pat| ==> pat[i] == FoldChar(pattern[i]);
    LiteralDenotes(pat, cand);
    if Matches(pattern, candidate) { MatchesSound(pattern, candidate); }
    if pat == cand { MatchesComplete(pattern, candidate); }
  }

  lemma {:induction false} LiteralDenotes(pat: string, cand: string)
    requires '*' !in pat && '?' !in pat
    ensures Denotes(pat, cand, '*', '?') <==> pat == cand
  {
    if pat != [] && cand != [] {
      LiteralDenotes(pat[1..], cand[1..]);
      assert pat == [pat[0]] + pat[1..] && cand == [cand[0]] + cand[1..];
    }
  }
}
