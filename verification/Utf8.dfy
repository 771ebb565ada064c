/** UTF-8 as RFC 3629 section 4 defines it, over bytes. */
module Utf8 {
  import opened Bytes

  predicate IsTail(b: byte) { 0x80 <= b <= 0xBF }

  /** The length of the well-formed character that `s` starts with; 0 when there is none. */
  function CharLength(s: Bytes): (n: nat)
    ensures n <= |s| && n <= 4
    ensures forall i :: 1 <= i < n ==> IsTail(s[i])
    ensures n > 0 ==> !IsTail(s[0])
  {
    if s == [] then 0
    else if s[0] <= 0x7F then 1
    else if |s| >= 2 && 0xC2 <= s[0] <= 0xDF && IsTail(s[1]) then 2
    else if |s| >= 3 && IsTail(s[1]) && IsTail(s[2])
            && (|| (s[0] == 0xE0 && s[1] >= 0xA0) || (0xE1 <= s[0] <= 0xEC)
                || (s[0] == 0xED && s[1] <= 0x9F) || (0xEE <= s[0] <= 0xEF)) then 3
    else if |s| >= 4 && IsTail(s[1]) && IsTail(s[2]) && IsTail(s[3])
            && (|| (s[0] == 0xF0 && s[1] >= 0x90) || (0xF1 <= s[0] <= 0xF3) || (s[0] == 0xF4 && s[1] <= 0x8F)) then 4
    else 0
  }

  predicate Valid(s: Bytes) {
    s == [] || (CharLength(s) > 0 && Valid(s[CharLength(s)..]))
  }

  /** `is_char_boundary`. */
  predicate IsBoundary(s: Bytes, i: nat)
    requires i <= |s|
  {
    i == 0 || i == |s| || !IsTail(s[i])
  }

  lemma PrefixLength(s: Bytes, i: nat)
    requires 0 < CharLength(s) <= i <= |s|
    ensures CharLength(s[..i]) == CharLength(s)
  {
  }

  /** Cutting valid text at a boundary leaves two valid texts. */
  lemma {:induction false} CutValid(s: Bytes, i: nat)
    requires Valid(s) && i <= |s| && IsBoundary(s, i)
    ensures Valid(s[..i]) && Valid(s[i..])
    decreases |s|
  {
    hide CharLength;
    if i == 0 {
      assert s[0..] == s;
    } else {
      var n := CharLength(s);
      assert i >= n;
      assert s[n..][i - n..] == s[i..];
      assert i < |s| ==> s[n..][i - n] == s[i];
      CutValid(s[n..], i - n);
      assert s[..i][n..] == s[n..][..i - n];
      PrefixLength(s, i);
    }
  }

  /** A boundary lies at most three bytes before any place in valid text. */
  lemma {:induction false} NearBoundary(s: Bytes, k: nat) returns (b: nat)
    requires Valid(s) && k <= |s|
    ensures b <= k <= b + 3 && IsBoundary(s, b)
    decreases |s|
  {
    if k == 0 {
      b := 0;
    } else {
      var n := CharLength(s);
      if k < n {
        b := 0;
      } else {
        b := NearBoundary(s[n..], k - n);
        assert 0 < n + b < |s| ==> s[n..][b] == s[n + b];
        assert n < |s| ==> !IsTail(s[n..][0]);
        b := n + b;
      }
    }
  }

  /** A control character: C0, delete, or C1 behind its lead byte. */
  predicate HasControl(s: Bytes) {
    || (exists i :: 0 <= i < |s| && (s[i] < 0x20 || s[i] == 0x7F))
    || (exists i :: 0 <= i < |s| - 1 && s[i] == 0xC2 && 0x80 <= s[i + 1] <= 0x9F)
  }
}
