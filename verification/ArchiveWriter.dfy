/** The streaming encryptor: any sequence of writes, with a sink that may fail. */
module ArchiveWriter {
  import opened Bytes
  import opened Wrappers
  import opened ArchiveFormat

  /** `TooManyFrames`: the frame counter has run out. */
  datatype Outcome = Done | SinkFailed | TooManyFrames

  /** A counter, and with it a nonce, belongs to one frame. */
  ghost predicate NoncesUnique(sealed: set<Frame>) {
    forall f, g :: f in sealed && g in sealed && f.counter == g.counter ==> f == g
  }

  class ArchiveEncryptWriter {
    const session: Session
    const fallible: bool        // whether the sink can fail
    var encrypted: Bytes        // what the sink has received
    var counter: nat
    var plaintext: Bytes        // the frame being filled

    ghost var total: Bytes      // every byte taken from the caller
    ghost var full: seq<Bytes>  // the full frames already sealed and accepted by the sink
    ghost var sealed: set<Frame> // every frame ever given to the cipher
    ghost var clean: bool       // no call has failed
    ghost var exhausted: bool   // a call has reported TooManyFrames

    ghost predicate Valid()
      reads this
    {
      && session.aead.Sound()
      && counter <= U64_MAX && |plaintext| <= FRAME_BYTES
      && (exhausted ==> !clean)
      && (clean ==> Clean())
      && (!exhausted ==> NonceDiscipline())
    }

    /** Without failures the sink holds the header and one sealed frame for each full chunk taken so far. */
    ghost predicate Clean()
      reads this
    {
      && counter == |full|
      && (forall i :: 0 <= i < |full| ==> |full[i]| == FRAME_BYTES)
      && total == Flat(full) + plaintext
      && encrypted == session.header + session.Body(DataFrames(full))
    }

    /** A frame with the current counter can only be the pending full frame, sealed by a flush that failed. */
    ghost predicate NonceDiscipline()
      reads this
    {
      && (forall f :: f in sealed ==> f.counter <= counter)
      && NoncesUnique(sealed)
      && (forall f :: f in sealed && f.counter == counter ==>
            f == Frame(counter, DATA_FRAME, plaintext) && |plaintext| == FRAME_BYTES)
    }

    constructor (aead: Aead, key: Key, salt: Bytes, noncePrefix: Bytes, fallible: bool)
      requires aead.Sound() && |salt| == 16 && |noncePrefix| == 4
      ensures Valid() && clean && !exhausted && total == [] && counter == 0
      ensures session == Session(aead, key, EncodeHeader(salt, noncePrefix), noncePrefix)
      ensures this.fallible == fallible
    {
      session := Session(aead, key, EncodeHeader(salt, noncePrefix), noncePrefix);
      this.fallible := fallible;
      encrypted := EncodeHeader(salt, noncePrefix);
      counter, plaintext := 0, [];
      total, full, sealed, clean, exhausted := [], [], {}, true, false;
      new;
      assert session.Body(DataFrames([])) == [];
      assert encrypted == session.header + [];
    }

    /** `write_all`: a failing sink may have taken a part. */
    method WriteAll(bytes: Bytes) returns (ok: bool)
      modifies this`encrypted
      ensures ok ==> encrypted == old(encrypted) + bytes
      ensures !fallible ==> ok
    {
      ok := true;
      if fallible {
        var taken: nat :| taken <= |bytes|;
        ok := taken == |bytes|;
        encrypted := encrypted + bytes[..taken];
        if ok { assert bytes[..taken] == bytes; }
      } else {
        encrypted := encrypted + bytes;
      }
    }

    /** `write_encrypted_frame`: seals first, then writes the kind, the length and the ciphertext. */
    method WriteEncryptedFrame(kind: byte, content: Bytes) returns (ok: bool)
      requires |content| <= FRAME_BYTES
      modifies this`encrypted, this`sealed
      ensures sealed == old(sealed) + {Frame(counter, kind, content)}
      ensures ok ==> encrypted == old(encrypted) + session.FrameBytes(Frame(counter, kind, content))
      ensures !fallible ==> ok
    {
      var frame := Frame(counter, kind, content);
      var ciphertext := session.Ciphertext(frame);
      sealed := sealed + {frame};
      ok := WriteAll([kind]);
      if !ok { return; }
      ok := WriteAll(LittleEndian(|content| + TAG_BYTES, 4));
      if !ok { return; }
      ok := WriteAll(ciphertext);
      if ok {
        assert encrypted == old(encrypted) + ([kind] + LittleEndian(|content| + TAG_BYTES, 4) + ciphertext);
      }
    }

    /** `flush_data_frame`: a failed sink leaves the frame and the counter as they were. */
    method FlushDataFrame() returns (outcome: Outcome)
      requires session.aead.Sound() && counter <= U64_MAX && |plaintext| <= FRAME_BYTES
      modifies this`encrypted, this`sealed, this`plaintext, this`counter
      ensures sealed == old(sealed) + (if old(plaintext) == [] then {} else {Frame(old(counter), DATA_FRAME, old(plaintext))})
      ensures outcome.SinkFailed? ==> counter == old(counter) && plaintext == old(plaintext) && old(plaintext) != [] && fallible
      ensures outcome.TooManyFrames? ==> counter == old(counter) == U64_MAX && plaintext == [] && old(plaintext) != []
      ensures outcome.Done? && old(plaintext) == [] ==> counter == old(counter) && plaintext == [] && encrypted == old(encrypted)
      ensures outcome.Done? && old(plaintext) != [] ==>
                && counter == old(counter) + 1 <= U64_MAX && plaintext == []
                && encrypted == old(encrypted) + session.FrameBytes(Frame(old(counter), DATA_FRAME, old(plaintext)))
    {
      if plaintext == [] { return Done; }
      var ok := WriteEncryptedFrame(DATA_FRAME, plaintext);
      if !ok { return SinkFailed; }
      plaintext := [];
      if counter == U64_MAX { return TooManyFrames; }
      counter := counter + 1;
      return Done;
    }

    /** A flush of a frame that has filled up, with what it means for the whole run. */
    method FlushFullFrame() returns (outcome: Outcome)
      requires Valid() && |plaintext| == FRAME_BYTES
      modifies this
      ensures Valid() && total == old(total)
      ensures sealed == old(sealed) + {Frame(old(counter), DATA_FRAME, old(plaintext))}
      ensures outcome.Done? ==> clean == old(clean) && exhausted == old(exhausted) && plaintext == [] && counter == old(counter) + 1
      ensures outcome.SinkFailed? ==> fallible && exhausted == old(exhausted)
      ensures outcome.TooManyFrames? ==> exhausted && counter == old(counter) == U64_MAX && plaintext == []
      ensures outcome.TooManyFrames? && old(clean) ==> FrameCount(|total|) > U64_MAX
    {
      hide Session.Body, Session.FrameBytes, Flat, DataFrames;
      if clean { FullChunks(full, []); }
      outcome := FlushDataFrame();
      clean := clean && outcome.Done?;
      exhausted := exhausted || outcome.TooManyFrames?;
      if clean {
        FrameAdded(session, full, old(plaintext));
        full := full + [old(plaintext)];
        assert total == Flat(full) + plaintext;
      }
    }

    /** Takes all of `bytes`, sealing a frame whenever it is full; what was written before is kept. */
    method Write(bytes: Bytes) returns (outcome: Outcome)
      requires Valid()
      modifies this
      ensures Valid() && old(sealed) <= sealed
      ensures outcome.Done? ==> clean == old(clean) && exhausted == old(exhausted)
      ensures outcome.Done? && clean ==> total == old(total) + bytes
      ensures outcome.SinkFailed? ==> fallible && exhausted == old(exhausted)
      ensures outcome.TooManyFrames? ==> exhausted && counter == U64_MAX && plaintext == []
      ensures outcome.TooManyFrames? && old(clean) ==> FrameCount(|old(total) + bytes|) > U64_MAX
      ensures old(plaintext) == [] && |bytes| == FRAME_BYTES ==>
                Frame(old(counter), DATA_FRAME, bytes) in sealed && (outcome.Done? ==> counter == old(counter) + 1)
    {
      hide Flat, Session.Body, FrameCount;
      var left := bytes;
      while left != []
        invariant Valid() && old(sealed) <= sealed
        invariant clean == old(clean) && exhausted == old(exhausted)
        invariant clean ==> total + left == old(total) + bytes
        invariant old(plaintext) == [] && left == bytes ==> plaintext == [] && counter == old(counter)
        invariant old(plaintext) == [] && |bytes| == FRAME_BYTES && left != bytes ==>
                    left == [] && Frame(old(counter), DATA_FRAME, bytes) in sealed && counter == old(counter) + 1
        decreases |left|, |plaintext|
      {
        ghost var before, all := plaintext, left;
        left := Take(left);
        assert |plaintext + left| == |before + all|;
        if before == [] && |bytes| == FRAME_BYTES && all == bytes {
          assert before + all == bytes;
          assert left == [];
          assert plaintext + left == plaintext;
        }
        if |plaintext| == FRAME_BYTES {
          outcome := FlushFullFrame();
          if !outcome.Done? {
            if outcome.TooManyFrames? && old(clean) {
              MoreFrames(|total|, |total + left|);
            }
            return;
          }
        }
      }
      return Done;
    }

    /** Copies as much as the frame still holds. */
    method Take(left: Bytes) returns (rest: Bytes)
      requires Valid() && left != []
      modifies this`plaintext, this`total
      ensures Valid() && total + rest == old(total) + left
      ensures plaintext + rest == old(plaintext) + left
      ensures rest == [] || |plaintext| == FRAME_BYTES
      ensures |plaintext| >= |old(plaintext)|
    {
      hide Flat, Session.Body, DataFrames;
      var available := FRAME_BYTES - |plaintext|;
      var count := if available <= |left| then available else |left|;
      assert left[..count] + left[count..] == left;
      assert count == 0 ==> left[..count] == [];
      plaintext := plaintext + left[..count];
      total := total + left[..count];
      rest := left[count..];
    }

    /** Flushes what is left and writes the end marker. */
    method Finish() returns (outcome: Outcome)
      requires Valid()
      modifies this
      ensures outcome.Done? && old(clean) ==>
                encrypted == session.Envelope(old(total)) && |Chunks(old(total))| <= U64_MAX
      ensures outcome.TooManyFrames? && old(clean) ==> |Chunks(old(total))| > U64_MAX
      ensures outcome.SinkFailed? ==> fallible
      ensures !old(exhausted) ==>
                outcome.TooManyFrames? || NoncesUnique(sealed)
      ensures old(sealed) <= sealed
    {
      hide Session.Body, Session.FrameBytes, Chunks, Flat;
      ghost var rest, chunks := plaintext, full + if plaintext == [] then [] else [plaintext];
      if clean { LastChunk(session, full, rest); }
      outcome := FlushDataFrame();
      if !outcome.Done? { return; }
      assert old(clean) ==> encrypted == session.header + session.Body(DataFrames(chunks));
      EnvelopeEnds(session, chunks);
      var ok := WriteEncryptedFrame(FINAL_FRAME, []);
      if !ok { return SinkFailed; }
      return Done;
    }
  }

  lemma MoreFrames(n: nat, m: nat)
    requires n <= m
    ensures FrameCount(n) <= FrameCount(m)
  {
  }

  lemma {:induction false} FlatGrows(parts: seq<Bytes>, i: nat)
    requires i <= |parts|
    ensures |Flat(parts[..i])| <= |Flat(parts)|
    decreases |parts| - i
  {
    if i < |parts| {
      FlatGrows(parts, i + 1);
      assert parts[..i + 1][..i] == parts[..i];
    } else {
      assert parts[..i] == parts;
    }
  }

  lemma LastChunk(session: Session, full: seq<Bytes>, rest: Bytes)
    requires forall i :: 0 <= i < |full| ==> |full[i]| == FRAME_BYTES
    requires |rest| <= FRAME_BYTES
    ensures Chunks(Flat(full) + rest) == full + (if rest == [] then [] else [rest])
    ensures session.Body(DataFrames(full + (if rest == [] then [] else [rest])))
            == session.Body(DataFrames(full)) + (if rest == [] then [] else session.FrameBytes(Frame(|full|, DATA_FRAME, rest)))
  {
    FullChunks(full, rest);
    if rest == [] { assert full + [] == full; } else { FrameAdded(session, full, rest); }
  }

  lemma FrameAdded(session: Session, chunks: seq<Bytes>, chunk: Bytes)
    ensures session.Body(DataFrames(chunks + [chunk]))
            == session.Body(DataFrames(chunks)) + session.FrameBytes(Frame(|chunks|, DATA_FRAME, chunk))
    ensures Flat(chunks + [chunk]) == Flat(chunks) + chunk
  {
    var frames := DataFrames(chunks + [chunk]);
    assert frames[..|frames| - 1] == DataFrames(chunks);
    assert (chunks + [chunk])[..|chunks|] == chunks;
  }

  lemma EnvelopeEnds(session: Session, chunks: seq<Bytes>)
    ensures session.header + session.Body(DataFrames(chunks) + [Frame(|chunks|, FINAL_FRAME, [])])
            == session.header + session.Body(DataFrames(chunks)) + session.FrameBytes(Frame(|chunks|, FINAL_FRAME, []))
  {
    var frames := DataFrames(chunks) + [Frame(|chunks|, FINAL_FRAME, [])];
    assert frames[..|frames| - 1] == DataFrames(chunks);
  }

  /** Any split of a plaintext into writes, with a sink that does not fail, gives the one envelope of the concatenation. */
  method Encrypt(aead: Aead, key: Key, salt: Bytes, noncePrefix: Bytes, parts: seq<Bytes>) returns (archive: Option<Bytes>)
    requires aead.Sound() && |salt| == 16 && |noncePrefix| == 4
    ensures archive.Some? <==> |Chunks(Flat(parts))| <= U64_MAX
    ensures archive.Some? ==>
              archive.value == Session(aead, key, EncodeHeader(salt, noncePrefix), noncePrefix).Envelope(Flat(parts))
  {
    hide Session.Envelope, EncodeHeader;
    var writer := new ArchiveEncryptWriter(aead, key, salt, noncePrefix, false);
    for i := 0 to |parts|
      invariant writer.Valid() && writer.clean && !writer.fallible
      invariant writer.session == Session(aead, key, EncodeHeader(salt, noncePrefix), noncePrefix)
      invariant fresh(writer) && writer.total == Flat(parts[..i])
    {
      var outcome := writer.Write(parts[i]);
      assert parts[..i + 1][..i] == parts[..i];
      if !outcome.Done? {
        assert FrameCount(|Flat(parts[..i + 1])|) > U64_MAX;
        FlatGrows(parts, i + 1);
        MoreFrames(|Flat(parts[..i + 1])|, |Flat(parts)|);
        ChunksShape(Flat(parts));
        return None;
      }
    }
    assert parts[..|parts|] == parts;
    var outcome := writer.Finish();
    if !outcome.Done? { return None; }
    return Some(writer.encrypted);
  }

  /** Once the counter has run out and the caller goes on, two different frames do share a nonce. */
  method ExhaustedReuse(writer: ArchiveEncryptWriter, first: Bytes, second: Bytes)
    requires writer.Valid() && !writer.fallible && writer.counter == U64_MAX && writer.plaintext == []
    requires |first| == |second| == FRAME_BYTES && first != second
    modifies writer
    ensures exists f, g :: f in writer.sealed && g in writer.sealed && f != g && f.counter == g.counter
  {
    var outcome := writer.Write(first);
    outcome := writer.Write(second);
    assert Frame(U64_MAX, DATA_FRAME, first) in writer.sealed;
    assert Frame(U64_MAX, DATA_FRAME, second) in writer.sealed;
  }
}
