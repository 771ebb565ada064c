/** Where every byte of an encrypted checkpoint archive stands. */
module ArchiveLayout {
  import opened Bytes
  import opened ArchiveFormat

  function Least(a: nat, b: nat): nat { if a <= b then a else b }

  /** The part of the plaintext in the frame with counter `k`; the end marker holds nothing. */
  function Part(plaintext: Bytes, k: nat): Bytes {
    plaintext[Least(k * 0x10_0000, |plaintext|)..Least((k + 1) * 0x10_0000, |plaintext|)]
  }

  lemma CountBound(n: nat)
    requires n > 0
    ensures n == (FrameCount(n) - 1) * FRAME_BYTES + LastLength(n) && FrameCount(n) >= 1
  {
  }

  lemma {:induction false} ChunkIs(plaintext: Bytes, k: nat)
    requires k < |Chunks(plaintext)|
    ensures Chunks(plaintext)[k] == Part(plaintext, k)
    decreases |plaintext|
  {
    var n := |plaintext|;
    var cut := n - LastLength(n);
    CountBound(n);
    ChunksShape(plaintext);
    ChunksShape(plaintext[..cut]);
    if k == |Chunks(plaintext)| - 1 {
      assert cut == k * FRAME_BYTES;
    } else {
      ChunkIs(plaintext[..cut], k);
      assert (k + 1) * FRAME_BYTES <= cut;
      assert plaintext[..cut][k * FRAME_BYTES..(k + 1) * FRAME_BYTES] == plaintext[k * FRAME_BYTES..(k + 1) * FRAME_BYTES];
    }
  }

  /** A frame stands in the body behind all frames before it. */
  lemma {:induction false} BodySlice(session: Session, frames: seq<Frame>, k: nat)
    requires k < |frames|
    ensures var start, bytes := |session.Body(frames[..k])|, session.FrameBytes(frames[k]);
      start + |bytes| <= |session.Body(frames)| && session.Body(frames)[start..start + |bytes|] == bytes
    decreases |frames|
  {
    var front := frames[..|frames| - 1];
    if k == |frames| - 1 {
      assert frames[..k] == front;
    } else {
      BodySlice(session, front, k);
      assert front[..k] == frames[..k];
    }
  }

  lemma {:induction false} FlatLength(plaintext: Bytes, k: nat)
    requires k <= |Chunks(plaintext)|
    ensures |Flat(Chunks(plaintext)[..k])| == Least(k * FRAME_BYTES, |plaintext|)
  {
    var chunks := Chunks(plaintext);
    ChunksShape(plaintext);
    if k > 0 {
      FlatLength(plaintext, k - 1);
      ChunkIs(plaintext, k - 1);
      assert chunks[..k][..k - 1] == chunks[..k - 1];
    }
  }

  /** Where the frame with counter `k` starts: behind the header and the frames before it, 21 bytes longer than their parts. */
  lemma FrameStart(session: Session, plaintext: Bytes, k: nat)
    requires session.aead.Sound() && k < |Frames(plaintext)|
    ensures |session.Body(Frames(plaintext)[..k])| == Least(k * 0x10_0000, |plaintext|) + 21 * k
  {
    var chunks := Chunks(plaintext);
    assert Frames(plaintext)[..k] == DataFrames(chunks[..k]);
    DataSize(session, chunks[..k]);
    FlatLength(plaintext, k);
  }

  /** Eight bytes that count, the most significant first. */
  ghost predicate Counts(bytes: Bytes, k: nat) {
    |bytes| == 8 && forall i :: 0 <= i < 8 ==> bytes[7 - i] == k / Pow256(i) % 256
  }

  /** Four bytes that measure, the least significant first. */
  ghost predicate Measures(bytes: Bytes, n: nat) {
    |bytes| == 4 && forall i :: 0 <= i < 4 ==> bytes[i] == n / Pow256(i) % 256
  }

  ghost predicate SealedWith(session: Session, k: nat, kind: byte, plaintext: Bytes, ciphertext: Bytes) {
    exists counter, length :: Counts(counter, k) && Measures(length, |plaintext| + 16)
      && ciphertext == session.aead.seal(session.key, session.noncePrefix + counter, session.header + counter + [kind] + length, plaintext)
  }

  /** The frame starts `at`: its kind, the length of its ciphertext, and the ciphertext, bound to the header and to all of these. */
  ghost predicate Stands(session: Session, archive: Bytes, at: nat, k: nat, kind: byte, plaintext: Bytes) {
    var size := |plaintext| + 16;
    && at + 5 + size <= |archive| && archive[at] == kind && Measures(archive[at + 1..at + 5], size)
    && SealedWith(session, k, kind, plaintext, archive[at + 5..at + 5 + size])
  }

  /** Each part of the plaintext stands in its frame, behind the header and the frames before it; the end marker stands last. */
  lemma FrameAt(session: Session, plaintext: Bytes, k: nat)
    requires session.aead.Sound() && |session.header| == HEADER_V2_BYTES && k <= FrameCount(|plaintext|)
    ensures Stands(session, session.Envelope(plaintext), 56 + Least(k * 0x10_0000, |plaintext|) + 21 * k, k,
                   if k < FrameCount(|plaintext|) then 0 else 1, Part(plaintext, k))
    ensures k == FrameCount(|plaintext|) ==> 56 + Least(k * 0x10_0000, |plaintext|) + 21 * k + 21 == |session.Envelope(plaintext)|
  {
    hide *;
    FrameIs(plaintext, k);
    FrameStart(session, plaintext, k);
    BodySlice(session, Frames(plaintext), k);
    Placed(session, plaintext, Frames(plaintext)[k], |session.Body(Frames(plaintext)[..k])|);
    if k == FrameCount(|plaintext|) {
      EndIsEmpty(plaintext);
      EnvelopeSize(session, plaintext);
    }
  }

  lemma FrameIs(plaintext: Bytes, k: nat)
    requires k <= FrameCount(|plaintext|)
    ensures |Frames(plaintext)| == FrameCount(|plaintext|) + 1
    ensures Frames(plaintext)[k] == Frame(k, if k < FrameCount(|plaintext|) then 0 else 1, Part(plaintext, k))
  {
    ChunksShape(plaintext);
    if k < FrameCount(|plaintext|) { ChunkIs(plaintext, k); } else { EndIsEmpty(plaintext); }
    hide Chunks, Part, FrameCount;
  }

  lemma EndIsEmpty(plaintext: Bytes)
    ensures Part(plaintext, FrameCount(|plaintext|)) == []
    ensures Least(FrameCount(|plaintext|) * 0x10_0000, |plaintext|) == |plaintext|
  {
  }

  lemma FieldBytes(k: nat, n: nat)
    ensures Counts(BigEndian(k, 8), k) && Measures(LittleEndian(n, 4), n)
  {
    forall i: nat | i < 8 ensures BigEndian(k, 8)[7 - i] == k / Pow256(i) % 256 { ByteValues(k, 8, i); }
    forall i: nat | i < 4 ensures LittleEndian(n, 4)[i] == n / Pow256(i) % 256 { ByteValues(n, 4, i); }
  }

  lemma Placed(session: Session, plaintext: Bytes, frame: Frame, start: nat)
    requires session.aead.Sound() && |session.header| == HEADER_V2_BYTES
    requires var body, bytes := session.Body(Frames(plaintext)), session.FrameBytes(frame);
      start + |bytes| <= |body| && body[start..start + |bytes|] == bytes
    ensures Stands(session, session.Envelope(plaintext), 56 + start, frame.counter, frame.kind, frame.plaintext)
  {
    hide LittleEndian, BigEndian, Counts, Measures, Frames, Session.Body, Session.FrameBytes, Session.Ciphertext;
    var archive, at, size := session.Envelope(plaintext), 56 + start, |frame.plaintext| + 16;
    var bytes := session.FrameBytes(frame);
    FieldBytes(frame.counter, size);
    FrameParts(session, frame);
    assert archive[at..at + |bytes|] == bytes;
    assert archive[at + 1..at + 5] == bytes[1..5] && archive[at + 5..at + 5 + size] == bytes[5..] && archive[at] == bytes[0];
    SealedParts(session, frame);
  }

  lemma FrameParts(session: Session, frame: Frame)
    requires session.aead.Sound()
    ensures var bytes, size := session.FrameBytes(frame), |frame.plaintext| + 16;
      && |bytes| == 5 + size && bytes[0] == frame.kind && bytes[1..5] == LittleEndian(size, 4) && bytes[5..] == session.Ciphertext(frame)
  {
    hide LittleEndian, BigEndian, FrameAad, Nonce;
  }

  lemma SealedParts(session: Session, frame: Frame)
    ensures SealedWith(session, frame.counter, frame.kind, frame.plaintext, session.Ciphertext(frame))
  {
    hide LittleEndian, BigEndian, Counts, Measures;
    var size := |frame.plaintext| + 16;
    FieldBytes(frame.counter, size);
    assert session.header + BigEndian(frame.counter, 8) + [frame.kind] + LittleEndian(size, 4)
        == FrameAad(session.header, frame.counter, frame.kind, size);
  }
}
