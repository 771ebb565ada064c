/** Valid UTF-8 and its control characters, said of Unicode scalar values. */
module Utf8Exact {
  import opened Bytes
  import opened Utf8

  predicate Scalar(c: nat) { c < 0xD800 || 0xE000 <= c <= 0x10FFFF }

  /** The encoding of one scalar value, as the table in section 3 of RFC 3629 spreads its bits. */
  function Code(c: nat): (bytes: Bytes)
    requires Scalar(c)
  {
    if c < 0x80 then [c]
    else if c < 0x800 then [0xC0 + c / 0x40, 0x80 + c % 0x40]
    else if c < 0x1_0000 then [0xE0 + c / 0x1000, 0x80 + c / 0x40 % 0x40, 0x80 + c % 0x40]
    else [0xF0 + c / 0x4_0000, 0x80 + c / 0x1000 % 0x40, 0x80 + c / 0x40 % 0x40, 0x80 + c % 0x40]
  }

  predicate Scalars(text: seq<nat>) { forall i :: 0 <= i < |text| ==> Scalar(text[i]) }

  function Encoded(text: seq<nat>): Bytes
    requires Scalars(text)
  {
    if text == [] then [] else Code(text[0]) + Encoded(text[1..])
  }

  /** The encoding of a scalar value is one well-formed character, whatever follows. */
  lemma CodeIsCharacter(c: nat, rest: Bytes)
    requires Scalar(c)
    ensures CharLength(Code(c) + rest) == |Code(c)| > 0
  {
    var s := Code(c) + rest;
    if c < 0x80 {
      assert s[0] == c;
    } else if c < 0x800 {
      assert s[0] == 0xC0 + c / 0x40 && s[1] == 0x80 + c % 0x40;
    } else if c < 0x1_0000 {
      assert s[0] == 0xE0 + c / 0x1000 && s[1] == 0x80 + c / 0x40 % 0x40 && s[2] == 0x80 + c % 0x40;
    } else {
      assert s[0] == 0xF0 + c / 0x4_0000 && s[1] == 0x80 + c / 0x1000 % 0x40;
      assert s[2] == 0x80 + c / 0x40 % 0x40 && s[3] == 0x80 + c % 0x40;
    }
  }

  /** Every well-formed character encodes a scalar value. */
  lemma CharacterIsCode(s: Bytes) returns (c: nat)
    requires CharLength(s) > 0
    ensures Scalar(c) && Code(c) == s[..CharLength(s)]
  {
    match CharLength(s)
    case 1 => c := s[0];
    case 2 =>
      c := Joined(0, 0, s[0] - 0xC0, s[1] - 0x80);
    case 3 =>
      c := Joined(0, s[0] - 0xE0, s[1] - 0x80, s[2] - 0x80);
      assert s[..3] == [s[0], s[1], s[2]];
    case _ =>
      c := Joined(s[0] - 0xF0, s[1] - 0x80, s[2] - 0x80, s[3] - 0x80);
      assert s[..4] == [s[0], s[1], s[2], s[3]];
  }

  /** The number of four digits to the base 64. */
  lemma Joined(w: nat, x: nat, y: nat, z: nat) returns (c: nat)
    requires x < 0x40 && y < 0x40 && z < 0x40
    ensures c == ((w * 0x40 + x) * 0x40 + y) * 0x40 + z
    ensures c % 0x40 == z && c / 0x40 % 0x40 == y && c / 0x1000 % 0x40 == x && c / 0x4_0000 == w
    ensures c / 0x40 == (w * 0x40 + x) * 0x40 + y && c / 0x1000 == w * 0x40 + x
  {
    c := ((w * 0x40 + x) * 0x40 + y) * 0x40 + z;
  }

  lemma {:induction false} EncodedIsValid(text: seq<nat>)
    requires Scalars(text)
    ensures Valid(Encoded(text))
  {
    hide CharLength, Code;
    if text != [] {
      EncodedIsValid(text[1..]);
      CodeIsCharacter(text[0], Encoded(text[1..]));
      assert (Code(text[0]) + Encoded(text[1..]))[|Code(text[0])|..] == Encoded(text[1..]);
    }
  }

  lemma {:induction false} ValidIsEncoded(s: Bytes) returns (text: seq<nat>)
    requires Valid(s)
    ensures Scalars(text) && Encoded(text) == s
    decreases |s|
  {
    hide CharLength, Code;
    text := [];
    if s != [] {
      var n := CharLength(s);
      var c := CharacterIsCode(s);
      var rest := ValidIsEncoded(s[n..]);
      text := [c] + rest;
      assert text[1..] == rest && s == s[..n] + s[n..];
    }
  }

  ghost predicate Encodes(text: seq<nat>, s: Bytes) { Scalars(text) && Encoded(text) == s }

  /** Valid are exactly the encodings of sequences of scalar values. */
  lemma ValidExact(s: Bytes)
    ensures Valid(s) <==> exists text :: Encodes(text, s)
  {
    if Valid(s) {
      var text := ValidIsEncoded(s);
      assert Encodes(text, s);
    }
    if text :| Encodes(text, s) { EncodedIsValid(text); }
  }

  predicate IsControl(c: nat) { c < 0x20 || 0x7F <= c <= 0x9F }

  /** A control byte at the front: of one byte, or of two. */
  lemma CodeControl(c: nat)
    requires Scalar(c)
    ensures HasControl(Code(c)) <==> IsControl(c)
    ensures Code(c)[|Code(c)| - 1] != 0xC2 && (|Code(c)| > 1 ==> 0x80 <= Code(c)[|Code(c)| - 1])
  {
    var s := Code(c);
    if c < 0x80 {
      assert s[0] == c;
    } else if c < 0x800 {
      assert s[0] == 0xC0 + c / 0x40 && s[1] == 0x80 + c % 0x40;
    }
  }

  lemma ControlSplit(a: Bytes, b: Bytes)
    requires a != [] && a[|a| - 1] != 0xC2
    ensures HasControl(a + b) <==> HasControl(a) || HasControl(b)
  {
    var s := a + b;
    assert forall i :: 0 <= i < |b| ==> s[|a| + i] == b[i];
    if HasControl(s) && !HasControl(a) {
      if i :| 0 <= i < |s| && (s[i] < 0x20 || s[i] == 0x7F) {
        assert i >= |a| && b[i - |a|] == s[i];
      } else {
        var i :| 0 <= i < |s| - 1 && s[i] == 0xC2 && 0x80 <= s[i + 1] <= 0x9F;
        assert i != |a| - 1;
        assert i >= |a| && b[i - |a|] == s[i] && b[i - |a| + 1] == s[i + 1];
      }
    }
    if HasControl(b) {
      if i :| 0 <= i < |b| && (b[i] < 0x20 || b[i] == 0x7F) {
        assert s[|a| + i] == b[i];
      } else {
        var i :| 0 <= i < |b| - 1 && b[i] == 0xC2 && 0x80 <= b[i + 1] <= 0x9F;
        assert s[|a| + i] == b[i] && s[|a| + i + 1] == b[i + 1];
      }
    }
    if HasControl(a) {
      if i :| 0 <= i < |a| && (a[i] < 0x20 || a[i] == 0x7F) {
        assert s[i] == a[i];
      } else {
        var i :| 0 <= i < |a| - 1 && a[i] == 0xC2 && 0x80 <= a[i + 1] <= 0x9F;
        assert s[i] == a[i] && s[i + 1] == a[i + 1];
      }
    }
  }

  /** The test on bytes finds exactly the control characters of the general category Cc. */
  lemma {:induction false} ControlExact(text: seq<nat>)
    requires Scalars(text)
    ensures HasControl(Encoded(text)) <==> exists i :: 0 <= i < |text| && IsControl(text[i])
  {
    hide HasControl, Code, IsControl;
    if text == [] {
      NoControl();
    } else {
      ControlExact(text[1..]);
      CodeControl(text[0]);
      CodeIsCharacter(text[0], []);
      ControlSplit(Code(text[0]), Encoded(text[1..]));
      assert text == [text[0]] + text[1..];
    }
  }

  lemma NoControl()
    ensures !HasControl([])
  {
  }
}
