/** Strings as character sequences: ASCII case folding, splitting at a separator, trimming. */
module Text {

  predicate IsUpper(c: char) { 'A' <= c <= 'Z' }

  function FoldChar(c: char): char {
    if IsUpper(c) then (c as int + 32) as char else c
  }

  /** `to_ascii_lowercase`. */
  function Fold(s: string): (r: string)
    ensures |r| == |s|
    ensures forall i :: 0 <= i < |s| ==> r[i] == FoldChar(s[i])
  {
    seq(|s|, i requires 0 <= i < |s| => FoldChar(s[i]))
  }

  /** The same character, or the two cases of one ASCII letter. */
  predicate SameLetter(a: char, b: char) {
    a == b || ('A' <= a <= 'Z' && b as int == a as int + 32) || ('A' <= b <= 'Z' && a as int == b as int + 32)
  }

  predicate CaseVariants(s: string, t: string) {
    |s| == |t| && forall i :: 0 <= i < |s| ==> SameLetter(s[i], t[i])
  }

  /** Folding identifies the case variants of a text, and leaves no upper-case letter. */
  lemma FoldExact(s: string, t: string)
    ensures Fold(s) == Fold(t) <==> CaseVariants(s, t)
    ensures CaseVariants(s, Fold(s)) && forall i :: 0 <= i < |s| ==> !('A' <= Fold(s)[i] <= 'Z')
  {
    if Fold(s) == Fold(t) {
      forall i | 0 <= i < |s| ensures SameLetter(s[i], t[i]) {
        assert FoldChar(s[i]) == Fold(s)[i] == Fold(t)[i] == FoldChar(t[i]);
      }
    }
  }

  lemma FoldIdempotent(s: string)
    ensures Fold(Fold(s)) == Fold(s)
  {
  }

  /** The control characters of the Unicode general category Cc. */
  predicate IsControl(c: char) {
    (c as int) < 0x20 || 0x7f <= (c as int) <= 0x9f
  }

  predicate HasControl(s: string) {
    exists i :: 0 <= i < |s| && IsControl(s[i])
  }

  /** The pieces of `s` between occurrences of `sep`; always at least one piece. */
  function Split<T(==)>(s: seq<T>, sep: T): (r: seq<seq<T>>)
    ensures |r| >= 1
  {
    if s == [] then [[]]
    else if s[0] == sep then [[]] + Split(s[1..], sep)
    else var rest := Split(s[1..], sep); [[s[0]] + rest[0]] + rest[1..]
  }

  function Join<T>(parts: seq<seq<T>>, sep: T): seq<T> {
    if parts == [] then []
    else if |parts| == 1 then parts[0]
    else parts[0] + [sep] + Join(parts[1..], sep)
  }

  lemma {:induction false} SplitPiece<T>(s: seq<T>, sep: T)
    requires sep !in s
    ensures Split(s, sep) == [s]
  {
    if s != [] {
      SplitPiece(s[1..], sep);
      assert s == [s[0]] + s[1..];
    }
  }

  lemma {:induction false} SplitConcat<T>(left: seq<T>, sep: T, right: seq<T>)
    ensures Split(left + [sep] + right, sep) == Split(left, sep) + Split(right, sep)
  {
    var whole := left + [sep] + right;
    if left == [] {
      assert whole[1..] == right;
    } else {
      assert whole[1..] == left[1..] + [sep] + right;
      SplitConcat(left[1..], sep, right);
    }
  }

  lemma {:induction false} JoinSplit<T>(s: seq<T>, sep: T)
    ensures Join(Split(s, sep), sep) == s
  {
    if s != [] {
      var rest := Split(s[1..], sep);
      JoinSplit(s[1..], sep);
      if s[0] == sep {
        assert Split(s, sep)[1..] == rest;
      } else {
        assert Split(s, sep)[1..] == rest[1..];
      }
    }
  }

  lemma {:induction false} SplitJoin<T>(parts: seq<seq<T>>, sep: T)
    requires parts != []
    requires forall i :: 0 <= i < |parts| ==> sep !in parts[i]
    ensures Split(Join(parts, sep), sep) == parts
  {
    SplitPiece(parts[0], sep);
    if |parts| > 1 {
      SplitJoin(parts[1..], sep);
      SplitConcat(parts[0], sep, Join(parts[1..], sep));
    }
  }

  lemma SplitInjective<T>(s: seq<T>, t: seq<T>, sep: T)
    requires Split(s, sep) == Split(t, sep)
    ensures s == t
  {
    JoinSplit(s, sep);
    JoinSplit(t, sep);
  }

  lemma JoinInjective<T>(p: seq<seq<T>>, q: seq<seq<T>>, sep: T)
    requires p != [] && q != []
    requires forall i :: 0 <= i < |p| ==> sep !in p[i]
    requires forall i :: 0 <= i < |q| ==> sep !in q[i]
    requires Join(p, sep) == Join(q, sep)
    ensures p == q
  {
    SplitJoin(p, sep);
    SplitJoin(q, sep);
  }

  /** A longest stretch of `s` without the separator. */
  ghost predicate IsPiece(s: string, sep: char, i: int, j: int) {
    && 0 <= i <= j <= |s| && (i == 0 || s[i - 1] == sep) && (j == |s| || s[j] == sep)
    && forall k :: i <= k < j ==> s[k] != sep
  }

  ghost predicate PieceFrom(s: string, sep: char, from: nat, p: string) {
    exists i, j :: from <= i && IsPiece(s, sep, i, j) && p == s[i..j]
  }

  lemma {:induction false} SplitPieces(s: string, sep: char, p: string)
    ensures exists j :: IsPiece(s, sep, 0, j) && Split(s, sep)[0] == s[0..j]
    ensures p in Split(s, sep)[1..] <==> PieceFrom(s, sep, 1, p)
  {
    if s == [] {
      assert IsPiece(s, sep, 0, 0);
    } else {
      var tail, rest := s[1..], Split(s[1..], sep);
      SplitPieces(tail, sep, p);
      assert rest == [rest[0]] + rest[1..];
      var first :| IsPiece(tail, sep, 0, first) && rest[0] == tail[0..first];
      PieceShift(s, sep, p);
      if s[0] == sep {
        assert IsPiece(s, sep, 0, 0);
        assert Split(s, sep)[1..] == rest;
        OnlyFirst(tail, sep, first, p);
      } else {
        assert IsPiece(s, sep, 0, first + 1);
        assert [s[0]] + tail[0..first] == s[0..first + 1];
        assert Split(s, sep)[1..] == rest[1..];
      }
    }
  }

  /** The pieces after the first character are those of what follows, where a piece starts anew only behind a separator. */
  lemma PieceShift(s: string, sep: char, p: string)
    requires s != []
    ensures PieceFrom(s, sep, 1, p) <==> PieceFrom(s[1..], sep, if s[0] == sep then 0 else 1, p)
  {
    var tail, from: nat := s[1..], if s[0] == sep then 0 else 1;
    hide IsPiece;
    if PieceFrom(s, sep, 1, p) {
      var i, j :| 1 <= i && IsPiece(s, sep, i, j) && p == s[i..j];
      OneShifted(s, sep, i, j);
    }
    if PieceFrom(tail, sep, from, p) {
      var i, j :| from <= i && IsPiece(tail, sep, i, j) && p == tail[i..j];
      OneShifted(s, sep, i + 1, j + 1);
    }
  }

  lemma OneShifted(s: string, sep: char, i: int, j: int)
    requires s != [] && 1 <= i
    ensures IsPiece(s, sep, i, j) <==> IsPiece(s[1..], sep, i - 1, j - 1) && (i == 1 ==> s[0] == sep)
    ensures i <= j <= |s| ==> s[i..j] == s[1..][i - 1..j - 1]
  {
    var tail := s[1..];
    assert forall k :: 1 <= k < |s| ==> s[k] == tail[k - 1];
    assert forall k :: 0 <= k < |tail| ==> tail[k] == s[k + 1];
  }

  lemma OnlyFirst(s: string, sep: char, first: int, p: string)
    requires IsPiece(s, sep, 0, first)
    ensures PieceFrom(s, sep, 0, p) <==> p == s[0..first] || PieceFrom(s, sep, 1, p)
  {
    if PieceFrom(s, sep, 0, p) {
      var i, j :| 0 <= i && IsPiece(s, sep, i, j) && p == s[i..j];
      if i == 0 { assert j == first; }
    }
  }

  lemma PieceIs(s: string, sep: char, p: string)
    ensures p in Split(s, sep) <==> PieceFrom(s, sep, 0, p)
  {
    SplitPieces(s, sep, p);
    assert Split(s, sep) == [Split(s, sep)[0]] + Split(s, sep)[1..];
    var first :| IsPiece(s, sep, 0, first) && Split(s, sep)[0] == s[0..first];
    OnlyFirst(s, sep, first, p);
  }

  /** `trim_start_matches` for one character. */
  function TrimStart(s: string, c: char): (r: string)
    ensures r == [] || r[0] != c
  {
    if s != [] && s[0] == c then TrimStart(s[1..], c) else s
  }

  /** Only the leading occurrences go, all of them. */
  lemma {:induction false} TrimStartExact(s: string, c: char) returns (n: nat)
    ensures n <= |s| && TrimStart(s, c) == s[n..]
    ensures (forall k :: 0 <= k < n ==> s[k] == c) && (n < |s| ==> s[n] != c)
  {
    n := 0;
    if s != [] && s[0] == c {
      n := TrimStartExact(s[1..], c);
      assert forall k :: 1 <= k <= n ==> s[k] == s[1..][k - 1];
      n := n + 1;
    }
  }
}
