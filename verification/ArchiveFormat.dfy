/** The layout of the encrypted checkpoint archive, over an idealised authenticated cipher. */
module ArchiveFormat {
  import opened Bytes
  import opened Wrappers

  const MAGIC: Bytes := [79, 76, 69, 65, 70, 76, 89, 67, 80, 65, 82, 67, 72, 73, 86, 69] // "OLEAFLYCPARCHIVE"
  const VERSION_PBKDF2 := 1
  const VERSION_ARGON2ID := 2
  const KDF_PBKDF2: byte := 1
  const KDF_ARGON2ID: byte := 2
  const AEAD_AES_256_GCM: byte := 1
  const FRAME_BYTES := 0x10_0000
  const MAX_FRAME_BYTES := 0x80_0000
  const TAG_BYTES := 16
  const HEADER_PREFIX_BYTES := 20
  const HEADER_V1_BYTES := 48
  const HEADER_V2_BYTES := 56
  const DATA_FRAME: byte := 0
  const FINAL_FRAME: byte := 1
  const U64_MAX := 0xFFFF_FFFF_FFFF_FFFF

  // ---- header ----

  datatype Derivation = Pbkdf2(iterations: nat) | Argon2id(memoryKib: nat, timeCost: nat, parallelism: nat)

  datatype Header = Header(derivation: Derivation, frameBytes: nat, salt: Bytes, noncePrefix: Bytes)

  datatype HeaderError = NotAnArchive | UnsupportedVersion | UnsupportedEncryption | UnsafeKeySettings | InvalidFrameSize

  const DEFAULT_DERIVATION := Argon2id(65_536, 3, 1)

  function EncodeHeader(salt: Bytes, noncePrefix: Bytes): (header: Bytes)
    requires |salt| == 16 && |noncePrefix| == 4
    ensures |header| == HEADER_V2_BYTES
  {
    MAGIC + LittleEndian(VERSION_ARGON2ID, 2) + [KDF_ARGON2ID, AEAD_AES_256_GCM]
    + LittleEndian(65_536, 4) + LittleEndian(3, 4) + LittleEndian(1, 4) + LittleEndian(FRAME_BYTES, 4)
    + salt + noncePrefix
  }

  function U32At(header: Bytes, offset: nat): nat
    requires offset + 4 <= |header|
  {
    FromLittleEndian(header[offset..offset + 4])
  }

  function Version(header: Bytes): nat
    requires |header| >= HEADER_PREFIX_BYTES
  {
    FromLittleEndian(header[16..18])
  }

  function DecodeDerivation(header: Bytes): Result<(Derivation, nat), HeaderError>
    requires |header| >= HEADER_PREFIX_BYTES
  {
    if Version(header) == VERSION_PBKDF2 then
      if |header| != HEADER_V1_BYTES || header[18] != KDF_PBKDF2 then Err(UnsupportedEncryption)
      else
        var iterations := U32At(header, 20);
        if 100_000 <= iterations <= 2_000_000 then Ok((Pbkdf2(iterations), 24)) else Err(UnsafeKeySettings)
    else if Version(header) == VERSION_ARGON2ID then
      if |header| != HEADER_V2_BYTES || header[18] != KDF_ARGON2ID then Err(UnsupportedEncryption)
      else
        var memoryKib, timeCost, parallelism := U32At(header, 20), U32At(header, 24), U32At(header, 28);
        if !(1 <= parallelism <= 16) || !(1 <= timeCost <= 10) || memoryKib > 262_144 || memoryKib < parallelism * 8
        then Err(UnsafeKeySettings)
        else Ok((Argon2id(memoryKib, timeCost, parallelism), 32))
    else Err(UnsupportedVersion)
  }

  function DecodeHeader(header: Bytes): (r: Result<Header, HeaderError>)
    ensures r.Ok? ==> |header| in {HEADER_V1_BYTES, HEADER_V2_BYTES} && header[..16] == MAGIC
    ensures r.Ok? ==> 1 <= r.value.frameBytes <= MAX_FRAME_BYTES && |r.value.salt| == 16 && |r.value.noncePrefix| == 4
  {
    if |header| < HEADER_PREFIX_BYTES || header[..16] != MAGIC then Err(NotAnArchive)
    else if header[19] != AEAD_AES_256_GCM then
      Err(UnsupportedEncryption)
    else
      match DecodeDerivation(header)
      case Err(e) => Err(e)
      case Ok((derivation, offset)) =>
        var frameBytes := U32At(header, offset);
        if frameBytes == 0 || frameBytes > MAX_FRAME_BYTES then Err(InvalidFrameSize)
        else Ok(Header(derivation, frameBytes, header[offset + 4..offset + 20], header[offset + 20..offset + 24]))
  }

  lemma HeaderFields(salt: Bytes, noncePrefix: Bytes)
    requires |salt| == 16 && |noncePrefix| == 4
    ensures var header := EncodeHeader(salt, noncePrefix);
      && header[..16] == MAGIC && header[16..18] == LittleEndian(VERSION_ARGON2ID, 2)
      && header[18] == KDF_ARGON2ID && header[19] == AEAD_AES_256_GCM
      && header[20..24] == LittleEndian(65_536, 4) && header[24..28] == LittleEndian(3, 4)
      && header[28..32] == LittleEndian(1, 4) && header[32..36] == LittleEndian(FRAME_BYTES, 4)
      && header[36..52] == salt && header[52..56] == noncePrefix
  {
    hide LittleEndian;
    var head := MAGIC + LittleEndian(VERSION_ARGON2ID, 2) + [KDF_ARGON2ID, AEAD_AES_256_GCM];
    var settings := LittleEndian(65_536, 4) + LittleEndian(3, 4) + LittleEndian(1, 4) + LittleEndian(FRAME_BYTES, 4);
    assert EncodeHeader(salt, noncePrefix) == head + settings + salt + noncePrefix;
    assert |head| == 20 && |settings| == 16;
  }

  /** Decoding inverts encoding, with the settings the writer derives its key from. */
  lemma HeaderRoundTrip(salt: Bytes, noncePrefix: Bytes)
    requires |salt| == 16 && |noncePrefix| == 4
    ensures DecodeHeader(EncodeHeader(salt, noncePrefix)) == Ok(Header(DEFAULT_DERIVATION, FRAME_BYTES, salt, noncePrefix))
    ensures Version(EncodeHeader(salt, noncePrefix)) == VERSION_ARGON2ID
  {
    hide LittleEndian, FromLittleEndian, EncodeHeader;
    HeaderFields(salt, noncePrefix);
    Widths();
    LittleEndianInverse(VERSION_ARGON2ID, 2);
    LittleEndianInverse(65_536, 4);
    LittleEndianInverse(3, 4);
    LittleEndianInverse(1, 4);
    LittleEndianInverse(FRAME_BYTES, 4);
  }

  // ---- every header that is accepted ----

  /** The settings that a header may carry. */
  predicate Allowed(h: Header) {
    && (match h.derivation
        case Pbkdf2(iterations) => 100_000 <= iterations <= 2_000_000
        case Argon2id(memoryKib, timeCost, parallelism) =>
          1 <= parallelism <= 16 && 1 <= timeCost <= 10 && 8 * parallelism <= memoryKib <= 262_144)
    && 1 <= h.frameBytes <= 8 * 1024 * 1024 && |h.salt| == 16 && |h.noncePrefix| == 4
  }

  /** The algorithms of a version and their settings. */
  function Settings(derivation: Derivation): Bytes {
    match derivation
    case Pbkdf2(iterations) => [1, 0, 1, 1] + LittleEndian(iterations, 4)
    case Argon2id(memoryKib, timeCost, parallelism) =>
      [2, 0, 2, 1] + LittleEndian(memoryKib, 4) + LittleEndian(timeCost, 4) + LittleEndian(parallelism, 4)
  }

  /** A header of either version, byte by byte. */
  function Layout(h: Header): Bytes {
    MAGIC + Settings(h.derivation) + LittleEndian(h.frameBytes, 4) + h.salt + h.noncePrefix
  }

  /** A header is accepted as `h` exactly when it spells `h` and the settings are allowed. */
  lemma HeaderExact(header: Bytes, h: Header)
    ensures DecodeHeader(header) == Ok(h) <==> Allowed(h) && header == Layout(h)
  {
    hide DecodeHeader, Allowed, Layout;
    if Allowed(h) && header == Layout(h) { LayoutDecodes(h); }
    if DecodeHeader(header) == Ok(h) { DecodedIsLayout(header, h); }
  }

  /** Too short or without the magic it is no archive; with it, a third version is named before anything else is looked at. */
  lemma HeaderErrors(header: Bytes)
    ensures DecodeHeader(header) == Err(NotAnArchive) <==> |header| < 20 || header[..16] != MAGIC
    ensures DecodeHeader(header) == Err(UnsupportedVersion) <==>
              |header| >= 20 && header[..16] == MAGIC && header[19] == 1 && header[16..18] != [1, 0] && header[16..18] != [2, 0]
  {
    hide FromLittleEndian, LittleEndian;
    ShortVersion(1);
    ShortVersion(2);
  }

  lemma LayoutDecodes(h: Header)
    requires Allowed(h)
    ensures DecodeHeader(Layout(h)) == Ok(h)
  {
    hide LittleEndian, FromLittleEndian;
    Widths();
    LittleEndianInverse(h.frameBytes, 4);
    var header, n := Layout(h), 16 + |Settings(h.derivation)|;
    assert header[..16] == MAGIC && header[16..n] == Settings(h.derivation);
    assert header[n..n + 4] == LittleEndian(h.frameBytes, 4);
    assert header[n + 4..n + 20] == h.salt && header[n + 20..n + 24] == h.noncePrefix;
    match h.derivation
    case Pbkdf2(iterations) =>
      assert header[16..18] == [1, 0] && header[20..24] == LittleEndian(iterations, 4) by {
        assert header[16..18] == header[16..n][..2] && header[20..24] == header[16..n][4..8];
      }
      LittleEndianInverse(iterations, 4);
      ShortVersion(1);
    case Argon2id(memoryKib, timeCost, parallelism) =>
      assert header[16..18] == [2, 0] by { assert header[16..18] == header[16..n][..2]; }
      assert header[20..24] == LittleEndian(memoryKib, 4) by { assert header[20..24] == header[16..n][4..8]; }
      assert header[24..28] == LittleEndian(timeCost, 4) by { assert header[24..28] == header[16..n][8..12]; }
      assert header[28..32] == LittleEndian(parallelism, 4) by { assert header[28..32] == header[16..n][12..16]; }
      LittleEndianInverse(memoryKib, 4);
      LittleEndianInverse(timeCost, 4);
      LittleEndianInverse(parallelism, 4);
      ShortVersion(2);
  }

  /** The version of a header and its length, which the version decides. */
  lemma LayoutVersion(h: Header)
    requires Allowed(h)
    ensures var header := Layout(h);
      && header[..16] == MAGIC
      && (h.derivation.Pbkdf2? ==> |header| == HEADER_V1_BYTES && FromLittleEndian(header[16..18]) == VERSION_PBKDF2)
      && (h.derivation.Argon2id? ==> |header| == HEADER_V2_BYTES && FromLittleEndian(header[16..18]) == VERSION_ARGON2ID)
  {
    hide LittleEndian, FromLittleEndian;
    var header, n := Layout(h), 16 + |Settings(h.derivation)|;
    assert header[16..n] == Settings(h.derivation);
    assert header[16..n] == Settings(h.derivation);
    assert header[16..18] == header[16..n][..2] == if h.derivation.Pbkdf2? then [1, 0] else [2, 0];
    ShortVersion(1);
    ShortVersion(2);
  }

  /** What the writer puts in front is the layout of its settings. */
  lemma EncodeIsLayout(salt: Bytes, noncePrefix: Bytes)
    requires |salt| == 16 && |noncePrefix| == 4
    ensures var h := Header(DEFAULT_DERIVATION, FRAME_BYTES, salt, noncePrefix);
      Allowed(h) && EncodeHeader(salt, noncePrefix) == Layout(h)
  {
    hide EncodeHeader, Layout, DecodeHeader, Allowed;
    HeaderRoundTrip(salt, noncePrefix);
    HeaderExact(EncodeHeader(salt, noncePrefix), Header(DEFAULT_DERIVATION, FRAME_BYTES, salt, noncePrefix));
  }

  lemma ShortVersion(v: byte)
    ensures FromLittleEndian([v, 0]) == v
    ensures forall s: Bytes :: |s| == 2 && FromLittleEndian(s) == v ==> s == [v, 0]
  {
    TwoBytes([v, 0]);
    forall s: Bytes | |s| == 2 && FromLittleEndian(s) == v ensures s == [v, 0] { TwoBytes(s); }
  }

  lemma TwoBytes(s: Bytes)
    requires |s| == 2
    ensures FromLittleEndian(s) == (s[0] as int) + 256 * (s[1] as int)
  {
    assert s[1..][0] == s[1] && s[1..][1..] == [];
    assert FromLittleEndian(s[1..]) == s[1];
  }

  lemma DecodedIsLayout(header: Bytes, h: Header)
    requires DecodeHeader(header) == Ok(h)
    ensures Allowed(h) && header == Layout(h)
  {
    hide LittleEndian, FromLittleEndian, Settings, DecodeDerivation;
    var n := DecodeDerivation(header).value.1;
    SettingsRead(header);
    FromLittleEndianInverse(header[n..n + 4]);
    assert header == header[..16] + header[16..n] + header[n..n + 4] + header[n + 4..n + 20] + header[n + 20..n + 24];
  }

  lemma SettingsRead(header: Bytes)
    requires |header| >= HEADER_PREFIX_BYTES && header[19] == AEAD_AES_256_GCM && DecodeDerivation(header).Ok?
    ensures var (derivation, n) := DecodeDerivation(header).value;
      && n + 24 == |header| && header[16..n] == Settings(derivation)
      && match derivation
         case Pbkdf2(iterations) => 100_000 <= iterations <= 2_000_000
         case Argon2id(memoryKib, timeCost, parallelism) =>
           1 <= parallelism <= 16 && 1 <= timeCost <= 10 && 8 * parallelism <= memoryKib <= 262_144
  {
    hide LittleEndian, FromLittleEndian;
    FromLittleEndianInverse(header[20..24]);
    if Version(header) == VERSION_PBKDF2 {
      ShortVersion(1);
      assert header[16..24] == header[16..18] + [header[18], header[19]] + header[20..24];
    } else {
      ShortVersion(2);
      FromLittleEndianInverse(header[24..28]);
      FromLittleEndianInverse(header[28..32]);
      assert header[16..32] == header[16..18] + [header[18], header[19]] + header[20..24] + header[24..28] + header[28..32];
    }
  }

  // ---- frames ----

  type Key = Bytes

  /** The cipher: `seal(key, nonce, aad, plaintext)` is the ciphertext with its tag. */
  datatype Aead = Aead(seal: (Key, Bytes, Bytes, Bytes) -> Bytes)
  {
    ghost predicate Sound() {
      forall key, nonce, aad, plaintext :: |seal(key, nonce, aad, plaintext)| == |plaintext| + TAG_BYTES
    }
  }

  /** A frame given to the cipher. */
  datatype Frame = Frame(counter: nat, kind: byte, plaintext: Bytes)

  /** The deterministic nonce: a fixed field, then the counter. */
  function Nonce(noncePrefix: Bytes, counter: nat): Bytes {
    noncePrefix + BigEndian(counter, 8)
  }

  function FrameAad(header: Bytes, counter: nat, kind: byte, ciphertextLength: nat): (aad: Bytes)
    ensures |aad| == |header| + 13
  {
    header + BigEndian(counter, 8) + [kind] + LittleEndian(ciphertextLength, 4)
  }

  lemma NonceInjective(p: Bytes, i: nat, q: Bytes, j: nat)
    requires |p| == |q| && i <= U64_MAX && j <= U64_MAX
    requires Nonce(p, i) == Nonce(q, j)
    ensures p == q && i == j
  {
    assert Nonce(p, i)[..|p|] == p && Nonce(q, j)[..|q|] == q;
    assert Nonce(p, i)[|p|..] == BigEndian(i, 8) && Nonce(q, j)[|q|..] == BigEndian(j, 8);
    Widths();
    BigEndianInverse(i, 8);
    BigEndianInverse(j, 8);
  }

  /** The associated data determines the header, the counter, the kind and the length. */
  lemma AadInjective(h: Bytes, i: nat, k: byte, n: nat, g: Bytes, j: nat, l: byte, m: nat)
    requires i <= U64_MAX && j <= U64_MAX && n < 0x1_0000_0000 && m < 0x1_0000_0000
    requires FrameAad(h, i, k, n) == FrameAad(g, j, l, m)
    ensures h == g && i == j && k == l && n == m
  {
    var a, b := FrameAad(h, i, k, n), FrameAad(g, j, l, m);
    assert a[..|h|] == h && b[..|g|] == g;
    assert a[|h|..|h| + 8] == BigEndian(i, 8) && b[|g|..|g| + 8] == BigEndian(j, 8);
    assert a[|h| + 8] == k && b[|g| + 8] == l;
    assert a[|h| + 9..] == LittleEndian(n, 4) && b[|g| + 9..] == LittleEndian(m, 4);
    Widths();
    BigEndianInverse(i, 8);
    BigEndianInverse(j, 8);
    LittleEndianInverse(n, 4);
    LittleEndianInverse(m, 4);
  }

  /** One archive being written: the cipher, its key and the header bound into every frame. */
  datatype Session = Session(aead: Aead, key: Key, header: Bytes, noncePrefix: Bytes)
  {
    function Ciphertext(frame: Frame): Bytes {
      aead.seal(key, Nonce(noncePrefix, frame.counter),
                FrameAad(header, frame.counter, frame.kind, |frame.plaintext| + TAG_BYTES), frame.plaintext)
    }

    /** What `write_encrypted_frame` writes. */
    function FrameBytes(frame: Frame): Bytes {
      [frame.kind] + LittleEndian(|frame.plaintext| + TAG_BYTES, 4) + Ciphertext(frame)
    }

    function Body(frames: seq<Frame>): Bytes {
      if frames == [] then [] else Body(frames[..|frames| - 1]) + FrameBytes(frames[|frames| - 1])
    }

    /** The whole archive of a plaintext. */
    function Envelope(plaintext: Bytes): Bytes {
      header + Body(Frames(plaintext))
    }
  }

  function Flat(chunks: seq<Bytes>): Bytes {
    if chunks == [] then [] else Flat(chunks[..|chunks| - 1]) + chunks[|chunks| - 1]
  }

  /** The length of the last of the frames that hold `n` bytes. */
  function LastLength(n: nat): (last: nat)
    requires n > 0
    ensures 1 <= last <= FRAME_BYTES && last <= n
    ensures FrameCount(n - last) + 1 == FrameCount(n)
  {
    if n % FRAME_BYTES == 0 then FRAME_BYTES else n % FRAME_BYTES
  }

  /** The number of frames that hold `n` bytes. */
  function FrameCount(n: nat): nat { (n + FRAME_BYTES - 1) / FRAME_BYTES }

  /** Full frames, then what is left if anything is. */
  function Chunks(plaintext: Bytes): (chunks: seq<Bytes>)
    decreases |plaintext|
  {
    if plaintext == [] then []
    else
      var last := LastLength(|plaintext|);
      Chunks(plaintext[..|plaintext| - last]) + [plaintext[|plaintext| - last..]]
  }

  function DataFrames(chunks: seq<Bytes>): (frames: seq<Frame>)
    ensures |frames| == |chunks|
    ensures forall i :: 0 <= i < |chunks| ==> frames[i] == Frame(i, DATA_FRAME, chunks[i])
  {
    seq(|chunks|, i requires 0 <= i < |chunks| => Frame(i, DATA_FRAME, chunks[i]))
  }

  /** The data frames and the authenticated end marker. */
  function FramesOf(chunks: seq<Bytes>): (frames: seq<Frame>)
    ensures |frames| == |chunks| + 1
    ensures forall i :: 0 <= i < |frames| ==> frames[i].counter == i
  {
    DataFrames(chunks) + [Frame(|chunks|, FINAL_FRAME, [])]
  }

  /** The frames that the writer cuts a plaintext into. */
  function Frames(plaintext: Bytes): (frames: seq<Frame>) { FramesOf(Chunks(plaintext)) }

  lemma {:induction false} ChunksFlat(plaintext: Bytes)
    ensures Flat(Chunks(plaintext)) == plaintext
    decreases |plaintext|
  {
    if plaintext != [] {
      var cut := |plaintext| - LastLength(|plaintext|);
      ChunksFlat(plaintext[..cut]);
      assert Chunks(plaintext)[..|Chunks(plaintext)| - 1] == Chunks(plaintext[..cut]);
      assert plaintext == plaintext[..cut] + plaintext[cut..];
    }
  }

  lemma {:induction false} ChunksShape(plaintext: Bytes)
    ensures |Chunks(plaintext)| == FrameCount(|plaintext|)
    ensures forall i :: 0 <= i < |Chunks(plaintext)| ==> 1 <= |Chunks(plaintext)[i]| <= FRAME_BYTES
    decreases |plaintext|
  {
    if plaintext != [] {
      ChunksShape(plaintext[..|plaintext| - LastLength(|plaintext|)]);
    }
  }

  lemma LastOf(count: nat, rest: nat)
    requires 1 <= rest <= FRAME_BYTES
    ensures LastLength(count * FRAME_BYTES + rest) == rest
  {
  }

  /** However the plaintext arrived, cutting it whenever a frame is full gives these chunks. */
  lemma {:induction false} FullChunks(full: seq<Bytes>, rest: Bytes)
    requires forall i :: 0 <= i < |full| ==> |full[i]| == FRAME_BYTES
    requires |rest| <= FRAME_BYTES
    ensures Chunks(Flat(full) + rest) == full + (if rest == [] then [] else [rest])
    ensures |Flat(full)| == |full| * FRAME_BYTES
    decreases |full|, |rest|
  {
    hide LastLength;
    if rest == [] {
      assert Flat(full) + rest == Flat(full);
      if full != [] {
        FullChunks(full[..|full| - 1], full[|full| - 1]);
        assert full[..|full| - 1] + [full[|full| - 1]] == full;
      }
    } else {
      FullChunks(full, []);
      assert Flat(full) + [] == Flat(full);
      LastOf(|full|, |rest|);
      var all := Flat(full) + rest;
      assert all[..|all| - |rest|] == Flat(full) && all[|all| - |rest|..] == rest;
    }
  }

  /** The archive is 56 bytes longer than the plaintext, and 21 more for each frame, the end marker included. */
  lemma EnvelopeSize(session: Session, plaintext: Bytes)
    requires session.aead.Sound() && |session.header| == HEADER_V2_BYTES
    ensures |session.Envelope(plaintext)|
            == 56 + |plaintext| + 21 * (FrameCount(|plaintext|) + 1)
  {
    ChunksShape(plaintext);
    ChunksFlat(plaintext);
    var chunks := Chunks(plaintext);
    DataSize(session, chunks);
    var frames := Frames(plaintext);
    assert frames[..|frames| - 1] == DataFrames(chunks);
  }

  lemma {:induction false} DataSize(session: Session, chunks: seq<Bytes>)
    requires session.aead.Sound()
    ensures |session.Body(DataFrames(chunks))| == |Flat(chunks)| + 21 * |chunks|
  {
    if chunks != [] {
      var frames := DataFrames(chunks);
      DataSize(session, chunks[..|chunks| - 1]);
      assert frames[..|frames| - 1] == DataFrames(chunks[..|chunks| - 1]);
    }
  }

  /** No two frames of an archive share a nonce. */
  lemma NoncesDistinct(session: Session, plaintext: Bytes, i: nat, j: nat)
    requires |Chunks(plaintext)| <= U64_MAX && i < j < |Frames(plaintext)|
    ensures Nonce(session.noncePrefix, Frames(plaintext)[i].counter) != Nonce(session.noncePrefix, Frames(plaintext)[j].counter)
  {
    if Nonce(session.noncePrefix, i) == Nonce(session.noncePrefix, j) {
      NonceInjective(session.noncePrefix, i, session.noncePrefix, j);
    }
  }
}
