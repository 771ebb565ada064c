/** The comma-escaped names under which a compiler cache files its bundle locators. */
module CacheKey {
  import opened Bytes
  import opened Wrappers
  import opened Utf8

  const COMMA: byte := 44

  predicate IsDigit(b: byte) { 48 <= b <= 57 }

  predicate AllDigits(s: Bytes) { forall i :: 0 <= i < |s| ==> IsDigit(s[i]) }

  /** The number a string of digits spells. */
  function Value(digits: Bytes): nat
    requires AllDigits(digits)
  {
    if digits == [] then 0 else 10 * Value(digits[..|digits| - 1]) + (digits[|digits| - 1] - 48)
  }

  /** The place of the next comma at or after `from`, if any. */
  function NextComma(name: Bytes, from: nat): (place: Option<nat>)
    requires from <= |name|
    ensures place.Some? ==> from <= place.value < |name| && name[place.value] == COMMA && COMMA !in name[from..place.value]
    ensures place.None? ==> COMMA !in name[from..]
    decreases |name| - from
  {
    if from == |name| then None
    else if name[from] == COMMA then Some(from)
    else
      var place := NextComma(name, from + 1);
      assert name[from..] == [name[from]] + name[from + 1..];
      assert place.Some? ==> name[from..place.value] == [name[from]] + name[from + 1..place.value];
      place
  }

  /** The byte spelled between two commas. */
  function Escaped(digits: Bytes): Option<byte> {
    if digits == [] || !AllDigits(digits) || Value(digits) > 255 then None else Some(Value(digits))
  }

  function Prepend(b: byte, rest: Option<Bytes>): Option<Bytes> {
    if rest.None? then None else Some([b] + rest.value)
  }

  /** Decoding from `index` on, before the UTF-8 test. */
  function DecodeFrom(name: Bytes, index: nat): Option<Bytes>
    requires index <= |name|
    decreases |name| - index
  {
    if index == |name| then Some([])
    else if name[index] != COMMA then Prepend(name[index], DecodeFrom(name, index + 1))
    else
      var end := NextComma(name, index + 1);
      if end.None? then None
      else
        var b := Escaped(name[index + 1..end.value]);
        if b.None? then None else Prepend(b.value, DecodeFrom(name, end.value + 1))
  }

  function Decode(name: Bytes): Option<Bytes> {
    var key := DecodeFrom(name, 0);
    if key.None? || !Valid(key.value) then None else key
  }

  function Attach(front: Bytes, rest: Option<Bytes>): Option<Bytes> {
    if rest.None? then None else Some(front + rest.value)
  }

  /** `decode_tectonic_cache_key`. */
  method DecodeTectonicCacheKey(name: Bytes) returns (key: Option<Bytes>)
    ensures key == Decode(name)
  {
    hide DecodeFrom, Value;
    var decoded: Bytes := [];
    var index := 0;
    AttachNothing(DecodeFrom(name, 0));
    DecodeUnfold(name, 0);
    while index < |name|
      invariant index <= |name|
      invariant DecodeFrom(name, 0) == Attach(decoded, DecodeFrom(name, index))
    {
      DecodeUnfold(name, index);
      if name[index] != COMMA {
        AttachNext(decoded, name[index], DecodeFrom(name, index + 1));
        decoded := decoded + [name[index]];
        index := index + 1;
        continue;
      }
      var end := index + 1;
      while end < |name| && name[end] != COMMA
        invariant index + 1 <= end <= |name|
        invariant NextComma(name, index + 1) == NextComma(name, end)
      {
        end := end + 1;
      }
      if end == |name| { return None; }
      var encoded := name[index + 1..end];
      if encoded == [] || !AllDigits(encoded) { return None; }
      if Value(encoded) > 255 { return None; }
      AttachNext(decoded, Value(encoded), DecodeFrom(name, end + 1));
      decoded := decoded + [Value(encoded)];
      index := end + 1;
    }
    DecodeUnfold(name, |name|);
    assert decoded + [] == decoded;
    if !Valid(decoded) { return None; }
    return Some(decoded);
  }

  lemma AttachNothing(rest: Option<Bytes>)
    ensures Attach([], rest) == rest
  {
    if rest.Some? { assert [] + rest.value == rest.value; }
  }

  lemma AttachNext(front: Bytes, b: byte, rest: Option<Bytes>)
    ensures Attach(front, Prepend(b, rest)) == Attach(front + [b], rest)
  {
    if rest.Some? { assert front + ([b] + rest.value) == front + [b] + rest.value; }
  }

  lemma DecodeUnfold(name: Bytes, index: nat)
    requires index <= |name|
    ensures index == |name| ==> DecodeFrom(name, index) == Some([])
    ensures index < |name| && name[index] != COMMA ==> DecodeFrom(name, index) == Prepend(name[index], DecodeFrom(name, index + 1))
    ensures index < |name| && name[index] == COMMA ==>
              var end := NextComma(name, index + 1);
              DecodeFrom(name, index) ==
                if end.None? || Escaped(name[index + 1..end.value]).None? then None
                else Prepend(Escaped(name[index + 1..end.value]).value, DecodeFrom(name, end.value + 1))
  {
  }

  // ---- what the decoder accepts ----

  /** A spelling of one byte: itself, unless it is a comma, or its number between commas, leading zeros allowed. */
  ghost predicate Spells(piece: Bytes, b: byte) {
    || (piece == [b] && b != COMMA)
    || (|piece| >= 3 && piece[0] == COMMA && piece[|piece| - 1] == COMMA
        && Escaped(piece[1..|piece| - 1]) == Some(b))
  }

  ghost predicate Spelling(name: Bytes, key: Bytes) {
    if key == [] then name == []
    else exists n :: 0 <= n <= |name| && Spells(name[..n], key[0]) && Spelling(name[n..], key[1..])
  }

  lemma {:induction false} SuffixDecodes(name: Bytes, n: nat, index: nat)
    requires n <= index <= |name|
    ensures DecodeFrom(name, index) == DecodeFrom(name[n..], index - n)
    decreases |name| - index
  {
    hide DecodeFrom, Escaped;
    DecodeUnfold(name, index);
    DecodeUnfold(name[n..], index - n);
    if index < |name| {
      assert name[n..][index - n] == name[index];
      if name[index] != COMMA {
        SuffixDecodes(name, n, index + 1);
      } else {
        SuffixComma(name, n, index + 1);
        var end := NextComma(name, index + 1);
        if end.Some? {
          assert name[n..][index - n + 1..end.value - n] == name[index + 1..end.value];
          SuffixDecodes(name, n, end.value + 1);
        }
      }
    }
  }

  lemma {:induction false} SuffixComma(name: Bytes, n: nat, from: nat)
    requires n <= from <= |name|
    ensures var a, b := NextComma(name, from), NextComma(name[n..], from - n);
      if a.None? then b.None? else b == Some(a.value - n)
    decreases |name| - from
  {
    if from < |name| && name[from] != COMMA { SuffixComma(name, n, from + 1); }
  }

  /** One step of decoding takes a spelling of one byte off the front. */
  lemma DecodeStep(name: Bytes, n: nat, b: byte)
    requires 0 < n <= |name| && Spells(name[..n], b)
    ensures DecodeFrom(name, 0) == Prepend(b, DecodeFrom(name[n..], 0))
  {
    hide DecodeFrom, Value;
    var piece := name[..n];
    assert piece[0] == name[0];
    SuffixDecodes(name, n, n);
    DecodeUnfold(name, 0);
    if name[0] == COMMA {
      assert n >= 3 && piece[n - 1] == COMMA;
      assert piece + name[n..] == name;
      assert name[n - 1] == COMMA;
      assert name[1..n - 1] == piece[1..n - 1];
      NextCommaIs(name, 1, n - 1);
    } else {
      assert n == 1;
    }
  }

  lemma {:induction false} NextCommaIs(name: Bytes, from: nat, place: nat)
    requires from <= place < |name| && name[place] == COMMA && AllDigits(name[from..place])
    ensures NextComma(name, from) == Some(place)
    decreases place - from
  {
    if from < place {
      assert IsDigit(name[from..place][0]);
      assert name[from..place][1..] == name[from + 1..place];
      NextCommaIs(name, from + 1, place);
    }
  }

  /** The decoder accepts exactly the spellings, and gives what they spell. */
  lemma {:induction false} DecodeExact(name: Bytes, key: Bytes)
    ensures DecodeFrom(name, 0) == Some(key) <==> Spelling(name, key)
    decreases |key|, |name|
  {
    hide DecodeFrom, Spells, NextComma;
    if key == [] {
      if name == [] { DecodesNothing(); } else { DecodesSomething(name); }
    } else {
      if Spelling(name, key) {
        var n :| 0 <= n <= |name| && Spells(name[..n], key[0]) && Spelling(name[n..], key[1..]);
        DecodeExact(name[n..], key[1..]);
        SpellsSomething(name[..n], key[0]);
        DecodeStep(name, n, key[0]);
        assert [key[0]] + key[1..] == key;
      }
      if DecodeFrom(name, 0) == Some(key) {
        if name == [] { DecodesNothing(); }
        var n := FirstPiece(name, key);
        DecodeStep(name, n, key[0]);
        assert DecodeFrom(name[n..], 0) == Some(key[1..]);
        DecodeExact(name[n..], key[1..]);
      }
    }
  }

  lemma DecodesNothing()
    ensures DecodeFrom([], 0) == Some([])
  {
  }

  lemma SpellsSomething(piece: Bytes, b: byte)
    requires Spells(piece, b)
    ensures piece != []
  {
  }

  /** Accepted are exactly the spellings of valid text: of bytes other than commas, and of numbers up to 255 between commas. */
  lemma DecodeAccepts(name: Bytes, key: Bytes)
    ensures Decode(name) == Some(key) <==> Spelling(name, key) && Valid(key)
    ensures forall digits: Bytes, b: byte :: Escaped(digits) == Some(b) <==>
              digits != [] && (forall i :: 0 <= i < |digits| ==> 48 <= digits[i] <= 57) && Value(digits) == b
  {
    hide Spelling, Valid, DecodeFrom;
    DecodeExact(name, key);
  }

  lemma DecodesSomething(name: Bytes)
    requires name != []
    ensures DecodeFrom(name, 0) != Some([])
  {
  }

  lemma FirstPiece(name: Bytes, key: Bytes) returns (n: nat)
    requires key != [] && DecodeFrom(name, 0) == Some(key)
    ensures 0 < n <= |name| && Spells(name[..n], key[0])
  {
    if name[0] != COMMA {
      n := 1;
      assert name[..1] == [name[0]];
    } else {
      var end := NextComma(name, 1).value;
      n := end + 1;
      assert name[..n][1..n - 1] == name[1..end];
      assert name[..n][n - 1] == COMMA;
      assert Escaped(name[1..end]) == Some(key[0]);
    }
  }

  // ---- the encoder ----

  predicate IsPlain(b: byte) {
    (48 <= b <= 57) || (65 <= b <= 90) || (97 <= b <= 122) || b == 46 || b == 45
  }

  /** The decimal digits of a number. */
  function Decimal(n: nat): (digits: Bytes)
    ensures digits != [] && AllDigits(digits) && Value(digits) == n
  {
    if n < 10 then [48 + n]
    else
      var digits := Decimal(n / 10) + [48 + n % 10];
      assert digits[..|digits| - 1] == Decimal(n / 10);
      digits
  }

  function EncodeByte(b: byte): (piece: Bytes)
    ensures piece != [] && Spells(piece, b)
  {
    if IsPlain(b) then [b]
    else
      var piece := [COMMA] + Decimal(b) + [COMMA];
      assert piece[1..|piece| - 1] == Decimal(b);
      piece
  }

  function Encode(key: Bytes): Bytes {
    if key == [] then [] else EncodeByte(key[0]) + Encode(key[1..])
  }

  lemma {:induction false} EncodeSpells(key: Bytes)
    ensures Spelling(Encode(key), key)
  {
    if key != [] {
      EncodeSpells(key[1..]);
      var n := |EncodeByte(key[0])|;
      assert Encode(key)[..n] == EncodeByte(key[0]) && Encode(key)[n..] == Encode(key[1..]);
    }
  }

  /** Decoding inverts encoding, for every key: commas and bytes outside ASCII included. */
  lemma RoundTrip(key: Bytes)
    requires Valid(key)
    ensures Decode(Encode(key)) == Some(key)
  {
    EncodeSpells(key);
    DecodeExact(Encode(key), key);
  }

  /** `safe_cache_component`. */
  predicate SafeComponent(name: Bytes) {
    && name != [] && name != [46] && name != [46, 46]
    && 47 !in name && 92 !in name
    && !HasControl(name)
  }

  /** A safe name is a component of its own: no separator, no control character, and not one of the two dotted directories. */
  lemma SafeExact(name: Bytes)
    ensures SafeComponent(name) <==>
            && name !in {[], [46], [46, 46]}
            && (forall i :: 0 <= i < |name| ==> name[i] >= 0x20 && name[i] !in {0x2F, 0x5C, 0x7F})
            && (forall i :: 0 <= i < |name| - 1 ==> !(name[i] == 0xC2 && 0x80 <= name[i + 1] <= 0x9F))
  {
  }

  /** Letters, digits, dots and hyphens stand for themselves; every other byte is written between commas. */
  lemma PlainExact(b: byte)
    ensures EncodeByte(b) == [b] <==> 48 <= b <= 57 || 65 <= b <= 90 || 97 <= b <= 122 || b in {45, 46}
    ensures EncodeByte(b) != [b] ==> EncodeByte(b)[0] == 44 && EncodeByte(b)[|EncodeByte(b)| - 1] == 44
  {
  }

  lemma {:induction false} EncodedBytes(key: Bytes)
    ensures forall i :: 0 <= i < |Encode(key)| ==> IsPlain(Encode(key)[i]) || Encode(key)[i] == COMMA
  {
    if key != [] {
      EncodedBytes(key[1..]);
      var piece := EncodeByte(key[0]);
      forall i | 0 <= i < |piece| ensures IsPlain(piece[i]) || piece[i] == COMMA {
        if !IsPlain(key[0]) && 0 < i < |piece| - 1 { assert piece[i] == Decimal(key[0])[i - 1]; }
      }
    }
  }

  lemma EncodedPlain(key: Bytes)
    ensures 47 !in Encode(key) && 92 !in Encode(key) && !HasControl(Encode(key))
  {
    hide Encode;
    EncodedBytes(key);
  }

  /** An encoded key is a safe file name, except for the keys that are empty or only one or two dots. */
  lemma EncodedIsSafe(key: Bytes)
    requires Valid(key)
    ensures SafeComponent(Encode(key)) <==> key !in {[], [46], [46, 46]}
  {
    hide Decode, Valid, Encode;
    RoundTrip(key);
    DotsAreValid();
    RoundTrip([]);
    RoundTrip([46]);
    RoundTrip([46, 46]);
    EncodedDots();
    EncodedPlain(key);
  }

  lemma DotsAreValid()
    ensures Valid([]) && Valid([46]) && Valid([46, 46])
  {
    var two: Bytes := [46, 46];
    assert two[1..] == [46];
  }

  lemma EncodedDots()
    ensures Encode([46]) == [46] && Encode([46, 46]) == [46, 46] && Encode([]) == []
  {
    var two: Bytes := [46, 46];
    assert two[1..] == [46];
  }
}
