/** The streaming decryptor, over an input that may be anything and a source that may fail. */
module ArchiveReader {
  import opened Bytes
  import opened Wrappers
  import opened ArchiveFormat
  import opened ArchiveWriter

  /** The stream of encrypted bytes; `fallible` sources may fail at any read, having consumed any part. */
  class Source {
    const data: Bytes
    const fallible: bool
    var pos: nat

    constructor (data: Bytes, fallible: bool)
      ensures this.data == data && this.fallible == fallible && pos == 0
    {
      this.data, this.fallible, pos := data, fallible, 0;
    }

    method ReadExact(count: nat) returns (bytes: Option<Bytes>)
      requires pos <= |data|
      modifies this
      ensures old(pos) <= pos <= |data|
      ensures bytes.Some? ==> pos == old(pos) + count && bytes.value == data[old(pos)..pos]
      ensures bytes.None? ==> fallible || old(pos) + count > |data|
    {
      var fails := *;
      if (fallible && fails) || pos + count > |data| {
        var next :| pos <= next <= |data|;
        pos := next;
        return None;
      }
      bytes := Some(data[pos..pos + count]);
      pos := pos + count;
    }

    /** One `read` of one byte: whether there was another. */
    method ReadByte() returns (more: Option<bool>)
      requires pos <= |data|
      modifies this
      ensures old(pos) <= pos <= |data|
      ensures more.None? ==> fallible
      ensures more.Some? ==> more.value == (old(pos) < |data|)
    {
      var fails := *;
      if fallible && fails { return None; }
      if pos == |data| { return Some(false); }
      pos := pos + 1;
      return Some(true);
    }
  }

  /**
   * The one archive written under its key, in either version, with any settings that are allowed and cut in any way that
   * respects its frame size: the ideal cipher opens its frames and nothing else.
   */
  datatype Archive = Archive(session: Session, settings: Header, chunks: seq<Bytes>)
  {
    ghost predicate Written() {
      && session.aead.Sound() && Allowed(settings)
      && session.noncePrefix == settings.noncePrefix && session.header == Layout(settings)
      && (forall i :: 0 <= i < |chunks| ==> 1 <= |chunks[i]| <= settings.frameBytes)
      && |chunks| <= U64_MAX
    }

    function Plaintext(): Bytes { Flat(chunks) }

    function Envelope(): Bytes { session.header + session.Body(FramesOf(chunks)) }

    ghost predicate Produced(i: nat, key: Key, nonce: Bytes, aad: Bytes, ciphertext: Bytes) {
      var frames := FramesOf(chunks);
      && i < |frames| && key == session.key
      && nonce == Nonce(session.noncePrefix, i)
      && aad == FrameAad(session.header, i, frames[i].kind, |frames[i].plaintext| + TAG_BYTES)
      && ciphertext == session.Ciphertext(frames[i])
    }

    method Open(key: Key, nonce: Bytes, aad: Bytes, ciphertext: Bytes) returns (content: Option<Bytes>)
      ensures content.Some? <==> exists i: nat :: Produced(i, key, nonce, aad, ciphertext)
      ensures content.Some? ==>
                exists i: nat :: Produced(i, key, nonce, aad, ciphertext) && content.value == FramesOf(chunks)[i].plaintext
    {
      hide FramesOf, DataFrames, BigEndian, LittleEndian, FrameAad, Nonce, Session.Ciphertext;
      var frames := FramesOf(chunks);
      for i := 0 to |frames|
        invariant forall j: nat :: j < i ==> !Produced(j, key, nonce, aad, ciphertext)
      {
        if key == session.key && nonce == Nonce(session.noncePrefix, i)
           && aad == FrameAad(session.header, i, frames[i].kind, |frames[i].plaintext| + TAG_BYTES)
           && ciphertext == session.Ciphertext(frames[i])
        {
          assert Produced(i, key, nonce, aad, ciphertext);
          return Some(frames[i].plaintext);
        }
      }
      return None;
    }
  }

  /** Whatever opens with this counter in its associated data is the frame with that counter of that archive. */
  lemma OpenedIsNext(archive: Archive, header: Bytes, counter: nat, kind: byte, key: Key, nonce: Bytes, ciphertext: Bytes, i: nat)
    requires archive.Written() && counter <= U64_MAX && |ciphertext| < 0x1_0000_0000
    requires archive.Produced(i, key, nonce, FrameAad(header, counter, kind, |ciphertext|), ciphertext)
    ensures header == archive.session.header && i == counter && kind == FramesOf(archive.chunks)[i].kind
    ensures [kind] + LittleEndian(|ciphertext|, 4) + ciphertext == archive.session.FrameBytes(FramesOf(archive.chunks)[i])
  {
    hide LittleEndian, BigEndian, Layout;
    var frame := FramesOf(archive.chunks)[i];
    FrameKinds(archive, i);
    AadInjective(header, counter, kind, |ciphertext|, archive.session.header, i, frame.kind, |frame.plaintext| + TAG_BYTES);
  }

  /** A frame of the archive sits right behind the frames before it. */
  lemma {:induction false} BodyAt(session: Session, frames: seq<Frame>, c: nat) returns (rest: Bytes)
    requires c < |frames|
    ensures session.Body(frames) == session.Body(frames[..c]) + session.FrameBytes(frames[c]) + rest
    decreases |frames|
  {
    if c == |frames| - 1 {
      rest := [];
    } else {
      var front := frames[..|frames| - 1];
      rest := BodyAt(session, front, c);
      assert front[..c] == frames[..c];
      rest := rest + session.FrameBytes(frames[|frames| - 1]);
    }
  }

  lemma HeaderRead(bytes: Bytes)
    requires |bytes| == 5
    ensures bytes == [bytes[0]] + LittleEndian(FromLittleEndian(bytes[1..]), 4)
  {
    FromLittleEndianInverse(bytes[1..]);
    assert bytes == [bytes[0]] + bytes[1..];
  }

  lemma SealedLength(session: Session, frame: Frame)
    requires session.aead.Sound()
    ensures |session.Ciphertext(frame)| == |frame.plaintext| + TAG_BYTES
  {
  }

  lemma FrameKinds(archive: Archive, i: nat)
    requires archive.Written() && i < |FramesOf(archive.chunks)|
    ensures var frame := FramesOf(archive.chunks)[i];
      && |frame.plaintext| <= archive.settings.frameBytes <= MAX_FRAME_BYTES
      && (frame.kind == DATA_FRAME || (frame.kind == FINAL_FRAME && frame.plaintext == []))
  {
    hide Layout;
  }

  /** Reading back the parts of a frame. */
  lemma FrameFields(session: Session, frame: Frame, ahead: Bytes, rest: Bytes)
    requires session.aead.Sound() && |frame.plaintext| <= MAX_FRAME_BYTES
    requires ahead == session.FrameBytes(frame) + rest
    ensures var length := |frame.plaintext| + TAG_BYTES;
      && |ahead| >= 5 + length
      && ahead[0] == frame.kind && FromLittleEndian(ahead[1..5]) == length
      && ahead[5..5 + length] == session.Ciphertext(frame)
  {
    hide LittleEndian, FromLittleEndian;
    var length := |frame.plaintext| + TAG_BYTES;
    Widths();
    LittleEndianInverse(length, 4);
    var c := session.Ciphertext(frame);
    assert ahead == [frame.kind] + LittleEndian(length, 4) + c + rest;
    assert ahead[1..5] == LittleEndian(length, 4);
    assert ahead[5..5 + |c|] == c;
  }

  lemma {:induction false} FlatPrefix(chunks: seq<Bytes>, c: nat)
    requires c <= |chunks|
    ensures Flat(chunks[..c]) <= Flat(chunks)
    decreases |chunks|
  {
    if c < |chunks| {
      FlatPrefix(chunks[..|chunks| - 1], c);
      assert chunks[..|chunks| - 1][..c] == chunks[..c];
    } else {
      assert chunks[..c] == chunks;
    }
  }

  datatype ReadOutcome = Got(bytes: Bytes) | Failed

  class ArchiveDecryptReader {
    const source: Source
    const key: Key
    const header: Bytes
    const noncePrefix: Bytes
    const frameBytes: nat
    var counter: nat
    var plaintext: Bytes
    var offset: nat
    var reachedEnd: bool

    const archive: Archive      // what was written under the key
    ghost var exposed: Bytes    // every byte handed to the caller
    ghost var faulted: bool     // some call has returned an error

    ghost predicate Valid()
      reads this, source
    {
      && archive.Written()
      && source.pos <= |source.data| && offset <= |plaintext|
      && |header| <= HEADER_V2_BYTES && frameBytes <= MAX_FRAME_BYTES
      && (header == archive.session.header ==> noncePrefix == archive.session.noncePrefix && frameBytes == archive.settings.frameBytes)
      && counter <= |archive.chunks|
      && (reachedEnd ==> counter == |archive.chunks| && offset == |plaintext|)
      && exposed + plaintext[offset..] == Flat(archive.chunks[..counter])
      && (!faulted ==> Consumed())
    }

    /** Without an error so far, the bytes consumed are those of the archive. */
    ghost predicate Consumed()
      reads this, source
      requires source.pos <= |source.data| && counter <= |archive.chunks|
    {
      var frames := FramesOf(archive.chunks);
      && (counter > 0 || reachedEnd ==> header == archive.session.header)
      && (if reachedEnd then source.data == header + archive.session.Body(frames)
          else source.data[..source.pos] == header + archive.session.Body(frames[..counter]))
    }

    /** The input is the archive, the source does not fail and the key is the right one. */
    ghost predicate Genuine() {
      !source.fallible && source.data == archive.Envelope() && key == archive.session.key
      && header == archive.session.header
    }

    constructor (source: Source, header: Bytes, decoded: Header, key: Key, archive: Archive)
      requires archive.Written()
      requires DecodeHeader(header) == Ok(decoded)
      requires source.pos <= |source.data| && source.data[..source.pos] == header
      ensures Valid() && !faulted && !reachedEnd && exposed == []
      ensures this.source == source && this.key == key && this.header == header && this.archive == archive
    {
      this.source, this.key, this.header, this.archive := source, key, header, archive;
      noncePrefix, frameBytes := decoded.noncePrefix, decoded.frameBytes;
      counter, plaintext, offset, reachedEnd := 0, [], 0, false;
      exposed, faulted := [], false;
      new;
      HeaderExact(header, decoded);
      HeaderExact(header, archive.settings);
      assert FramesOf(archive.chunks)[..0] == [];
      assert header + [] == header;
      assert archive.chunks[..0] == [];
    }
  
    /** The frame header, its checks, and the ciphertext it announces. */
    method ReadSealed() returns (raw: Option<(byte, Bytes)>)
      requires Valid() && !reachedEnd
      modifies source
      ensures old(source.pos) <= source.pos <= |source.data|
      ensures raw.Some? ==>
                && TAG_BYTES <= |raw.value.1| <= frameBytes + TAG_BYTES
                && source.data[old(source.pos)..source.pos] == [raw.value.0] + LittleEndian(|raw.value.1|, 4) + raw.value.1
      ensures Genuine() && !faulted ==>
                raw == Some((FramesOf(archive.chunks)[counter].kind, archive.session.Ciphertext(FramesOf(archive.chunks)[counter])))
    {
      hide Flat, FramesOf, DataFrames, Session.Body, Session.FrameBytes, Session.Ciphertext;
      hide Layout, LittleEndian, FromLittleEndian, BigEndian;
      ghost var next := FramesOf(archive.chunks)[counter];
      ghost var ahead := source.data[source.pos..];
      if Genuine() && !faulted {
        var rest := GenuineNext();
        FrameKinds(archive, counter);
        FrameFields(archive.session, next, ahead, rest);
      }
      var frameHeader := source.ReadExact(5);
      if frameHeader.None? { return None; }
      assert frameHeader.value == ahead[..5] && ahead[..5][1..] == ahead[1..5];
      var kind := frameHeader.value[0];
      var length := FromLittleEndian(frameHeader.value[1..]);
      if length < TAG_BYTES || length > frameBytes + TAG_BYTES { return None; }
      if kind == FINAL_FRAME && length != TAG_BYTES { return None; }
      if kind != DATA_FRAME && kind != FINAL_FRAME { return None; }
      var ciphertext := source.ReadExact(length);
      if ciphertext.None? { return None; }
      assert ciphertext.value == ahead[5..5 + length];
      assert source.data[old(source.pos)..source.pos] == frameHeader.value + ciphertext.value;
      HeaderRead(frameHeader.value);
      return Some((kind, ciphertext.value));
    }

    /** Opens one frame; what opens is the next frame of the archive. */
    method OpenNext() returns (frame: Option<(byte, Bytes)>)
      requires Valid() && !reachedEnd
      modifies source
      ensures old(source.pos) <= source.pos <= |source.data|
      ensures frame.Some? ==>
                && header == archive.session.header
                && frame.value == (FramesOf(archive.chunks)[counter].kind, FramesOf(archive.chunks)[counter].plaintext)
                && source.data[old(source.pos)..source.pos] == archive.session.FrameBytes(FramesOf(archive.chunks)[counter])
      ensures Genuine() && !faulted ==> frame.Some?
    {
      hide Flat, Session.Body, Session.FrameBytes, Session.Ciphertext, Layout, FrameAad, Nonce;
      var raw := ReadSealed();
      if raw.None? { return None; }
      var (kind, ciphertext) := raw.value;
      var nonce, aad := Nonce(noncePrefix, counter), FrameAad(header, counter, kind, |ciphertext|);
      if Genuine() && !faulted {
        SealedLength(archive.session, FramesOf(archive.chunks)[counter]);
        assert archive.Produced(counter, key, nonce, aad, ciphertext);
      }
      var content := archive.Open(key, nonce, aad, ciphertext);
      if content.None? { return None; }
      ghost var i: nat :| archive.Produced(i, key, nonce, aad, ciphertext) && content.value == FramesOf(archive.chunks)[i].plaintext;
      OpenedIsNext(archive, header, counter, kind, key, nonce, ciphertext, i);
      return Some((kind, content.value));
    }

    /** In the archive itself the next frame is what comes next. */
    lemma GenuineNext() returns (rest: Bytes)
      requires Valid() && !reachedEnd && Genuine() && !faulted
      ensures source.data[source.pos..] == archive.session.FrameBytes(FramesOf(archive.chunks)[counter]) + rest
    {
      hide Flat, Session.Body, Session.FrameBytes, Layout, FramesOf;
      var frames := FramesOf(archive.chunks);
      rest := BodyAt(archive.session, frames, counter);
      var before := header + archive.session.Body(frames[..counter]);
      var ahead := archive.session.FrameBytes(frames[counter]) + rest;
      assert source.data == before + ahead;
      assert source.data[..source.pos] == before;
      assert source.data[|before|..] == ahead;
    }
  
    /** `read_frame`: an error leaves what has been exposed and what is still to be exposed as it was. */
    method ReadFrame() returns (ok: bool)
      requires Valid() && !reachedEnd && offset == |plaintext|
      modifies this, source
      ensures Valid() && exposed == old(exposed)
      ensures !ok ==> faulted && counter == old(counter) && offset == |plaintext| && !reachedEnd
      ensures ok ==> faulted == old(faulted)
                     && (if reachedEnd then counter == old(counter) else counter == old(counter) + 1 && plaintext != [] && offset == 0)
      ensures Genuine() && !old(faulted) ==> ok
    {
      hide Flat, Session.Body, Session.FrameBytes, Layout;
      ghost var frames, chunks := FramesOf(archive.chunks), archive.chunks;
      var frame := OpenNext();
      if frame.None? { faulted := true; return false; }
      var (kind, content) := frame.value;
      if !faulted { ConsumedNext(archive.session, header, frames, counter, source.data, old(source.pos), source.pos); }
      if kind == FINAL_FRAME {
        if content != [] { assert false; } // the marker was sealed empty
        assert counter == |chunks|;
        assert frames[..counter + 1] == frames;
        var more := source.ReadByte();
        if more != Some(false) { faulted := true; return false; }
        reachedEnd, plaintext, offset := true, [], 0;
        return true;
      }
      if content == [] { assert false; } // no empty data frame was ever sealed
      FlatNext(chunks, counter);
      plaintext, offset := content, 0;
      counter := counter + 1;
      return true;
    }

    /** `read`: up to `capacity` bytes of what has been authenticated; nothing only at the authenticated end. */
    method Read(capacity: nat) returns (outcome: ReadOutcome)
      requires Valid()
      modifies this, source
      ensures Valid()
      ensures outcome.Failed? ==> faulted && exposed == old(exposed)
      ensures outcome.Got? ==> faulted == old(faulted) && exposed == old(exposed) + outcome.bytes && |outcome.bytes| <= capacity
      ensures outcome.Got? && capacity > 0 ==> (outcome.bytes == [] <==> reachedEnd)
      ensures Genuine() && !old(faulted) ==> outcome.Got?
    {
      hide Flat, Session.Body, Session.FrameBytes, Layout;
      if capacity == 0 { return Got([]); }
      while offset == |plaintext| && !reachedEnd
        invariant Valid() && exposed == old(exposed) && faulted == old(faulted)
        decreases |archive.chunks| - counter, !reachedEnd
      {
        var ok := ReadFrame();
        if !ok { return Failed; }
      }
      if reachedEnd { return Got([]); }
      var count := if capacity <= |plaintext| - offset then capacity else |plaintext| - offset;
      var bytes := plaintext[offset..offset + count];
      assert plaintext[offset..] == bytes + plaintext[offset + count..];
      assert exposed + plaintext[offset..] == exposed + bytes + plaintext[offset + count..];
      exposed := exposed + bytes;
      offset := offset + count;
      return Got(bytes);
    }

    /** Whatever the input and however often failed reads are retried, only a prefix of the plaintext is ever exposed. */
    lemma ExposesOnlyPrefix()
      requires Valid()
      ensures exposed <= archive.Plaintext()
    {
      FlatPrefix(archive.chunks, counter);
    }

    /** The end of the stream without any error on the way: the input was the archive, byte for byte, and all of it came out. */
    lemma EndMeansArchive()
      requires Valid() && reachedEnd && !faulted
      ensures source.data == archive.Envelope() && exposed == archive.Plaintext()
    {
      assert archive.chunks[..counter] == archive.chunks;
      assert plaintext[offset..] == [];
    }
  }

  lemma ConsumedNext(session: Session, header: Bytes, frames: seq<Frame>, c: nat, data: Bytes, from: nat, to: nat)
    requires c < |frames| && from <= to <= |data|
    requires data[..from] == header + session.Body(frames[..c])
    requires data[from..to] == session.FrameBytes(frames[c])
    ensures data[..to] == header + session.Body(frames[..c + 1])
  {
    assert data[..to] == data[..from] + data[from..to];
    assert frames[..c + 1][..c] == frames[..c];
  }

  lemma FlatNext(chunks: seq<Bytes>, c: nat)
    requires c < |chunks|
    ensures Flat(chunks[..c + 1]) == Flat(chunks[..c]) + chunks[c]
  {
    assert chunks[..c + 1][..c] == chunks[..c];
  }

  /** `read_header`: the fixed part, then as much as its version calls for. */
  method ReadHeader(source: Source) returns (header: Option<Bytes>)
    requires source.pos == 0
    modifies source
    ensures source.pos <= |source.data|
    ensures header.Some? ==> source.data[..source.pos] == header.value
    ensures !source.fallible && |source.data| >= 48 && source.data[..16] == MAGIC && FromLittleEndian(source.data[16..18]) == 1 ==>
              header == Some(source.data[..48])
    ensures !source.fallible && |source.data| >= 56 && source.data[..16] == MAGIC && FromLittleEndian(source.data[16..18]) == 2 ==>
              header == Some(source.data[..56])
  {
    hide FromLittleEndian;
    var prefix := source.ReadExact(HEADER_PREFIX_BYTES);
    if prefix.None? { return None; }
    assert prefix.value[..16] == source.data[..16] && prefix.value[16..18] == source.data[16..18];
    if prefix.value[..16] != MAGIC { return None; }
    var version := Version(prefix.value);
    var total;
    if version == VERSION_PBKDF2 { total := HEADER_V1_BYTES; }
    else if version == VERSION_ARGON2ID { total := HEADER_V2_BYTES; }
    else { return None; }
    var rest := source.ReadExact(total - HEADER_PREFIX_BYTES);
    if rest.None? { return None; }
    return Some(prefix.value + rest.value);
  }

  /** `new`: the key is derived from the password and from what the header says. */
  method OpenReader(source: Source, password: string, derive: (string, Header) -> Key, archive: Archive)
    returns (reader: ArchiveDecryptReader?)
    requires source.pos == 0 && archive.Written()
    modifies source
    ensures reader != null ==>
              && fresh(reader) && reader.Valid() && !reader.faulted && reader.exposed == []
              && reader.source == source && reader.archive == archive
    ensures !source.fallible && source.data == archive.Envelope() && |password| >= 8
            && derive(password, archive.settings) == archive.session.key
            ==> reader != null && reader.Genuine()
  {
    hide Flat, Session.Body, Layout, DecodeDerivation;
    if |password| < 8 { return null; }
    if source.data == archive.Envelope() {
      GenuineHeader(archive, source.data);
    }
    var header := ReadHeader(source);
    if header.None? { return null; }
    var decoded := DecodeHeader(header.value);
    if decoded.Err? { return null; }
    reader := new ArchiveDecryptReader(source, header.value, decoded.value, derive(password, decoded.value), archive);
  }

  lemma GenuineHeader(archive: Archive, data: Bytes)
    requires archive.Written() && data == archive.Envelope()
    ensures |data| >= |archive.session.header| && data[..|archive.session.header|] == archive.session.header
    ensures data[..16] == MAGIC
    ensures archive.settings.derivation.Pbkdf2? ==> |archive.session.header| == 48 && FromLittleEndian(data[16..18]) == 1
    ensures archive.settings.derivation.Argon2id? ==> |archive.session.header| == 56 && FromLittleEndian(data[16..18]) == 2
    ensures DecodeHeader(data[..|archive.session.header|]) == Ok(archive.settings)
  {
    hide Flat, Session.Body, FromLittleEndian, LittleEndian, DecodeHeader, Layout, FramesOf;
    var header := archive.session.header;
    LayoutVersion(archive.settings);
    HeaderExact(header, archive.settings);
    assert data[..|header|] == header;
    assert data[..16] == header[..16] && data[16..18] == header[16..18];
  }

  /**
   * Reading everything, with any buffer sizes, from any input: it succeeds only on the archive, byte for byte,
   * and then returns the whole plaintext; from a source that does not fail, with the right key, it does succeed.
   */
  method Decrypt(data: Bytes, fallible: bool, password: string, derive: (string, Header) -> Key, archive: Archive)
    returns (plaintext: Option<Bytes>)
    requires archive.Written()
    ensures plaintext.Some? ==> data == archive.Envelope() && plaintext.value == archive.Plaintext()
    ensures !fallible && data == archive.Envelope() && |password| >= 8
            && derive(password, archive.settings) == archive.session.key
            ==> plaintext.Some?
  {
    hide Archive.Envelope, Layout;
    var source := new Source(data, fallible);
    var reader := OpenReader(source, password, derive, archive);
    if reader == null { return None; }
    var result: Bytes := [];
    ghost var genuine := reader.Genuine();
    while true
      invariant fresh(reader) && fresh(source) && reader.source == source && source.data == data && reader.archive == archive
      invariant reader.Valid() && !reader.faulted && result == reader.exposed && genuine == reader.Genuine()
      decreases |archive.Plaintext()| - |result|
    {
      var capacity: nat :| capacity > 0;
      reader.ExposesOnlyPrefix();
      var outcome := reader.Read(capacity);
      reader.ExposesOnlyPrefix();
      match outcome
      case Failed => return None;
      case Got(bytes) =>
        if bytes == [] {
          reader.EndMeansArchive();
          return Some(result);
        }
        result := result + bytes;
    }
  }

  /** Any split into writes, any buffer sizes: what was written comes back. */
  method RoundTrip(aead: Aead, password: string, derive: (string, Header) -> Key, salt: Bytes, noncePrefix: Bytes, parts: seq<Bytes>)
    returns (restored: Option<Bytes>)
    requires aead.Sound() && |salt| == 16 && |noncePrefix| == 4 && |password| >= 8
    requires |Chunks(Flat(parts))| <= U64_MAX
    ensures restored == Some(Flat(parts))
  {
    hide Chunks, Flat, Session.Envelope, EncodeHeader;
    var key := derive(password, Header(DEFAULT_DERIVATION, FRAME_BYTES, salt, noncePrefix));
    var written := Encrypt(aead, key, salt, noncePrefix, parts);
    var settings := Header(DEFAULT_DERIVATION, FRAME_BYTES, salt, noncePrefix);
    var archive := Archive(Session(aead, key, EncodeHeader(salt, noncePrefix), noncePrefix), settings, Chunks(Flat(parts)));
    EncodeIsLayout(salt, noncePrefix);
    ChunksShape(Flat(parts));
    ChunksFlat(Flat(parts));
    EnvelopeIs(archive.session, Flat(parts));
    restored := Decrypt(written.value, false, password, derive, archive);
  }

  lemma EnvelopeIs(session: Session, plaintext: Bytes)
    ensures session.Envelope(plaintext) == session.header + session.Body(FramesOf(Chunks(plaintext)))
  {
  }
}
