/** Large results sent as a sequence of acknowledged chunks. */
module Chunked {
  import opened Bytes
  import opened Wrappers
  import opened Utf8

  const CHUNK_BYTES := 0x4_0000
  const WINDOW := 4

  datatype Message =
    | Start(sequence: nat, totalBytes: nat)
    | Chunk(sequence: nat, data: Bytes)
    | End(sequence: nat)

  // ---- splitting ----

  /** The last character boundary at or before `k`. */
  function CutAt(rest: Bytes, k: nat): (cut: nat)
    requires k <= |rest|
    ensures cut <= k && IsBoundary(rest, cut)
    ensures forall i :: cut < i <= k ==> !IsBoundary(rest, i)
  {
    if IsBoundary(rest, k) then k else CutAt(rest, k - 1)
  }

  function Least(a: nat, b: nat): nat { if a <= b then a else b }

  function Cut(rest: Bytes): (cut: nat)
    ensures cut <= |rest|
  {
    CutAt(rest, Least(|rest|, CHUNK_BYTES))
  }

  /** In valid text a cut makes progress, is the last boundary in a chunk, and loses at most three bytes of a full one. */
  lemma CutProgress(rest: Bytes)
    requires Valid(rest) && rest != []
    ensures 0 < Cut(rest) <= CHUNK_BYTES
    ensures Cut(rest) == |rest| || CHUNK_BYTES - 3 <= Cut(rest)
    ensures Valid(rest[..Cut(rest)]) && Valid(rest[Cut(rest)..])
    ensures forall i :: Cut(rest) < i <= |rest| && i <= 0x4_0000 ==> !IsBoundary(rest, i)
  {
    hide Valid, IsBoundary;
    var k := Least(|rest|, CHUNK_BYTES);
    var b := NearBoundary(rest, k);
    assert b <= Cut(rest);
    if |rest| <= CHUNK_BYTES { assert Cut(rest) == |rest| by { WholeIsBoundary(rest); } }
    CutValid(rest, Cut(rest));
  }

  lemma WholeIsBoundary(rest: Bytes)
    ensures IsBoundary(rest, |rest|)
  {
  }

  /** The pieces of a text. */
  function Pieces(text: Bytes): seq<Bytes>
    requires Valid(text)
    decreases |text|
  {
    if text == [] then []
    else
      CutProgress(text);
      [text[..Cut(text)]] + Pieces(text[Cut(text)..])
  }

  function Flat(pieces: seq<Bytes>): Bytes {
    if pieces == [] then [] else pieces[0] + Flat(pieces[1..])
  }

  /** The pieces are non-empty valid texts, all but the last nearly full, and together they are the text. */
  lemma {:induction false} PiecesShape(text: Bytes)
    requires Valid(text)
    ensures Flat(Pieces(text)) == text
    ensures forall i :: 0 <= i < |Pieces(text)| ==>
              && Valid(Pieces(text)[i]) && 0 < |Pieces(text)[i]| <= CHUNK_BYTES
              && (i < |Pieces(text)| - 1 ==> |Pieces(text)[i]| >= CHUNK_BYTES - 3)
    decreases |text|
  {
    hide Valid, Cut;
    if text != [] {
      CutProgress(text);
      PiecesShape(text[Cut(text)..]);
      assert text == text[..Cut(text)] + text[Cut(text)..];
    }
  }

  /** The chunk messages of some pieces, numbered from `first`. */
  function ChunkMessages(pieces: seq<Bytes>, first: nat): (messages: seq<Message>)
    ensures |messages| == |pieces|
    ensures forall i :: 0 <= i < |pieces| ==> messages[i] == Chunk(first + i, pieces[i])
  {
    seq(|pieces|, i requires 0 <= i < |pieces| => Chunk(first + i, pieces[i]))
  }

  /** The whole transfer of a text. */
  function Transfer(text: Bytes): (messages: seq<Message>)
    requires Valid(text)
  {
    [Start(0, |text|)] + ChunkMessages(Pieces(text), 1) + [End(|Pieces(text)| + 1)]
  }

  /** Messages are numbered consecutively from 0. */
  lemma TransferNumbered(text: Bytes, i: nat)
    requires Valid(text) && i < |Transfer(text)|
    ensures Transfer(text)[i].sequence == i
  {
  }

  /** The inner loop: stepping back to a boundary. */
  method FindCut(rest: Bytes) returns (cut: nat)
    ensures cut == Cut(rest)
  {
    cut := Least(|rest|, CHUNK_BYTES);
    while !IsBoundary(rest, cut)
      invariant cut <= |rest| && Cut(rest) == CutAt(rest, cut)
      decreases cut
    {
      cut := cut - 1;
    }
  }

  /** `chunk_text`, the reference splitting. */
  method ChunkText(text: Bytes) returns (messages: seq<Message>)
    requires Valid(text)
    ensures messages == Transfer(text)
  {
    hide Valid, Cut;
    messages := [Start(0, |text|)];
    var sequence := 1;
    var rest := text;
    ghost var done: seq<Bytes> := [];
    while rest != []
      invariant Valid(rest) && sequence == 1 + |done|
      invariant Pieces(text) == done + Pieces(rest)
      invariant messages == [Start(0, |text|)] + ChunkMessages(done, 1)
      decreases |rest|
    {
      CutProgress(rest);
      var cut := FindCut(rest);
      messages := messages + [Chunk(sequence, rest[..cut])];
      done := done + [rest[..cut]];
      sequence := sequence + 1;
      rest := rest[cut..];
    }
    messages := messages + [End(sequence)];
  }

  // ---- sending with a window ----

  datatype Event = Sent(message: Message) | Got(sequence: nat)

  function Greatest(a: nat, b: nat): nat { if a >= b then a else b }

  /** The highest chunk acknowledged, an acknowledgement covering only what had been sent when it was taken. */
  function Covered(acked: nat, sequence: nat, ack: nat): nat {
    Greatest(acked, Least(ack, sequence))
  }

  function ChunksSent(trace: seq<Event>): nat {
    if trace == [] then 0
    else
      var last := trace[|trace| - 1];
      ChunksSent(trace[..|trace| - 1]) + if last.Sent? && last.message.Chunk? then 1 else 0
  }

  function Acked(trace: seq<Event>): nat {
    if trace == [] then 0
    else
      var before, last := trace[..|trace| - 1], trace[|trace| - 1];
      if last.Got? then Covered(Acked(before), ChunksSent(before), last.sequence) else Acked(before)
  }

  function Messages(trace: seq<Event>): seq<Message> {
    if trace == [] then []
    else
      var last := trace[|trace| - 1];
      Messages(trace[..|trace| - 1]) + if last.Sent? then [last.message] else []
  }

  /** The acknowledgements taken, in order. */
  function AcksTaken(trace: seq<Event>): seq<nat> {
    if trace == [] then []
    else
      var last := trace[|trace| - 1];
      AcksTaken(trace[..|trace| - 1]) + if last.Got? then [last.sequence] else []
  }

  /** At no moment of the trace are more than `WINDOW` chunks unacknowledged. */
  ghost predicate WithinWindow(trace: seq<Event>) {
    forall k :: 0 <= k <= |trace| ==> ChunksSent(trace[..k]) - Acked(trace[..k]) <= WINDOW
  }

  lemma TraceNext(trace: seq<Event>, e: Event)
    ensures Messages(trace + [e]) == Messages(trace) + (if e.Sent? then [e.message] else [])
    ensures AcksTaken(trace + [e]) == AcksTaken(trace) + (if e.Got? then [e.sequence] else [])
    ensures ChunksSent(trace + [e]) == ChunksSent(trace) + if e.Sent? && e.message.Chunk? then 1 else 0
    ensures Acked(trace + [e]) == if e.Got? then Covered(Acked(trace), ChunksSent(trace), e.sequence) else Acked(trace)
    ensures WithinWindow(trace) && ChunksSent(trace + [e]) - Acked(trace + [e]) <= WINDOW ==> WithinWindow(trace + [e])
  {
    var next := trace + [e];
    assert next[..|trace|] == trace;
    forall k | 0 <= k <= |next| && WithinWindow(trace) && ChunksSent(next) - Acked(next) <= WINDOW
      ensures ChunksSent(next[..k]) - Acked(next[..k]) <= WINDOW
    {
      if k <= |trace| { assert next[..k] == trace[..k]; } else { assert next[..k] == next; }
    }
  }

  /** A trace of exactly these messages and acknowledgements, within the window throughout. */
  ghost predicate Tells(trace: seq<Event>, sent: seq<Message>, taken: seq<nat>, chunks: nat, acked: nat) {
    && Messages(trace) == sent && AcksTaken(trace) == taken
    && ChunksSent(trace) == chunks && Acked(trace) == acked && chunks - WINDOW <= acked <= chunks && WithinWindow(trace)
  }

  lemma SentNext(trace: seq<Event>, sent: seq<Message>, taken: seq<nat>, chunks: nat, acked: nat, message: Message)
    requires Tells(trace, sent, taken, chunks, acked) && chunks - acked < WINDOW
    ensures Tells(trace + [Sent(message)], sent + [message], taken, if message.Chunk? then chunks + 1 else chunks, acked)
  {
    hide WithinWindow, Messages, AcksTaken, ChunksSent, Acked;
    TraceNext(trace, Sent(message));
  }

  lemma TakenNext(trace: seq<Event>, sent: seq<Message>, taken: seq<nat>, chunks: nat, acked: nat, ack: nat)
    requires Tells(trace, sent, taken, chunks, acked)
    ensures Tells(trace + [Got(ack)], sent, taken + [ack], chunks, Covered(acked, chunks, ack))
  {
    hide WithinWindow, Messages, AcksTaken, ChunksSent, Acked;
    TraceNext(trace, Got(ack));
  }

  datatype Outcome = Delivered | ChannelFailed | AcksEnded

  /**
   * What the sender does after `sent` chunks, of which `acked` are covered: while the window is full it takes the next
   * acknowledgement, and otherwise sends the next message, unless the channel refuses it.
   */
  function Sending(pieces: seq<Bytes>, sent: nat, acked: nat, acks: seq<nat>, fails: nat -> bool): (Outcome, seq<Event>)
    requires sent <= |pieces|
    decreases |pieces| - sent, |acks|
  {
    if sent - acked >= WINDOW then
      if acks == [] then (AcksEnded, [])
      else
        var r := Sending(pieces, sent, Covered(acked, sent, acks[0]), acks[1..], fails);
        (r.0, [Got(acks[0])] + r.1)
    else if fails(sent + 1) then (ChannelFailed, [])
    else if sent == |pieces| then (Delivered, [Sent(End(sent + 1))])
    else
      var r := Sending(pieces, sent + 1, acked, acks, fails);
      (r.0, [Sent(Chunk(sent + 1, pieces[sent]))] + r.1)
  }

  /** What the sender does from the start. */
  function SendRun(text: Bytes, acks: seq<nat>, fails: nat -> bool): (Outcome, seq<Event>)
    requires Valid(text)
  {
    if fails(0) then (ChannelFailed, [])
    else
      var r := Sending(Pieces(text), 0, 0, acks, fails);
      (r.0, [Sent(Start(0, |text|))] + r.1)
  }

  /** What has been done and what is still to be done. */
  ghost predicate Continues(all: (Outcome, seq<Event>), trace: seq<Event>, rest: (Outcome, seq<Event>)) {
    all.0 == rest.0 && all.1 == trace + rest.1
  }

  lemma ContinuesBy(all: (Outcome, seq<Event>), trace: seq<Event>, e: Event, rest: (Outcome, seq<Event>), after: (Outcome, seq<Event>))
    requires Continues(all, trace, rest) && rest.0 == after.0 && rest.1 == [e] + after.1
    ensures Continues(all, trace + [e], after)
  {
    assert trace + ([e] + after.1) == trace + [e] + after.1;
  }

  /** The inner loop: waiting until fewer than `WINDOW` chunks are unacknowledged. */
  method AwaitWindow(sequence: nat, acked0: nat, acks: seq<nat>, taken0: nat, ghost sent: seq<Message>, ghost trace0: seq<Event>,
                     ghost pieces: seq<Bytes>, ghost fails: nat -> bool, ghost all: (Outcome, seq<Event>))
    returns (ok: bool, acked: nat, taken: nat, ghost trace: seq<Event>)
    requires sequence <= |pieces| && taken0 <= |acks|
    requires Continues(all, trace0, Sending(pieces, sequence, acked0, acks[taken0..], fails))
    ensures taken <= |acks| && Continues(all, trace, Sending(pieces, sequence, acked, acks[taken..], fails))
    ensures !ok ==> all == (AcksEnded, trace)
    requires taken0 <= |acks| && Tells(trace0, sent, acks[..taken0], sequence, acked0) && sequence - acked0 <= WINDOW
    ensures taken <= |acks| && Tells(trace, sent, acks[..taken], sequence, acked)
    ensures if ok then sequence - acked < WINDOW else sequence - acked == WINDOW && taken == |acks|
  {
    hide Tells;
    ok, acked, taken, trace := false, acked0, taken0, trace0;
    while sequence - acked >= WINDOW
      invariant taken <= |acks| && Tells(trace, sent, acks[..taken], sequence, acked) && sequence - acked <= WINDOW
      invariant Continues(all, trace, Sending(pieces, sequence, acked, acks[taken..], fails))
      decreases |acks| - taken
    {
      if taken == |acks| {
        assert trace + [] == trace;
        return;
      }
      ContinuesBy(all, trace, Got(acks[taken]), Sending(pieces, sequence, acked, acks[taken..], fails),
                  Sending(pieces, sequence, Covered(acked, sequence, acks[taken]), acks[taken..][1..], fails));
      assert acks[taken..][1..] == acks[taken + 1..];
      TakenNext(trace, sent, acks[..taken], sequence, acked, acks[taken]);
      assert acks[..taken] + [acks[taken]] == acks[..taken + 1];
      trace := trace + [Got(acks[taken])];
      acked := Covered(acked, sequence, acks[taken]);
      taken := taken + 1;
    }
    ok := true;
  }

  /** The messages of a transfer up to some of its pieces. */
  function SentSoFar(text: Bytes, done: seq<Bytes>): seq<Message> {
    [Start(0, |text|)] + ChunkMessages(done, 1)
  }

  lemma PieceSent(text: Bytes, done: seq<Bytes>, piece: Bytes)
    ensures SentSoFar(text, done + [piece]) == SentSoFar(text, done) + [Chunk(|done| + 1, piece)]
    ensures |SentSoFar(text, done)| == |done| + 1
  {
  }

  lemma SentIsPrefix(text: Bytes, done: seq<Bytes>, rest: Bytes)
    requires Valid(text) && Valid(rest) && Pieces(text) == done + Pieces(rest)
    ensures SentSoFar(text, done) < Transfer(text)
    ensures rest == [] ==> Transfer(text) == SentSoFar(text, done) + [End(|done| + 1)]
  {
    hide Valid, Cut;
    var all := ChunkMessages(Pieces(text), 1);
    assert all[..|done|] == ChunkMessages(done, 1);
    if rest == [] { assert Pieces(text) == done; }
  }

  /**
   * `send_chunked_text` under any acknowledgements: `acks` are those that ever arrive, after which the wait ends
   * in a timeout or a closed channel; `fails` says which message the channel refuses. What the channel took is `sent`.
   */
  method SendChunkedText(text: Bytes, acks: seq<nat>, fails: nat -> bool)
    returns (outcome: Outcome, sent: seq<Message>, ghost trace: seq<Event>)
    requires Valid(text)
    ensures sent <= Transfer(text) && (outcome.Delivered? <==> sent == Transfer(text))
    ensures Messages(trace) == sent && AcksTaken(trace) <= acks && WithinWindow(trace)
    ensures forall i :: 0 <= i < |sent| ==> !fails(i)
    ensures outcome.ChannelFailed? ==> fails(|sent|)
    ensures outcome.AcksEnded? ==> AcksTaken(trace) == acks && ChunksSent(trace) - Acked(trace) == WINDOW
    ensures (outcome, trace) == SendRun(text, acks, fails)
  {
    hide Valid, Cut, Pieces, Transfer, SentSoFar, WithinWindow, Messages, AcksTaken, ChunksSent, Acked, Sending, Continues;
    EmptyTrace();
    ghost var pieces, all := Pieces(text), SendRun(text, acks, fails);
    sent, trace := [], [];
    var acked: nat, taken: nat := 0, 0;
    if fails(0) {
      SentIsPrefix(text, [], text);
      return ChannelFailed, sent, trace;
    }
    SentNext(trace, sent, [], 0, 0, Start(0, |text|));
    sent, trace := sent + [Start(0, |text|)], trace + [Sent(Start(0, |text|))];
    var sequence := 1;
    var rest := text;
    ghost var done: seq<Bytes> := [];
    assert acks[..taken] == [] && sent == SentSoFar(text, done) by { FirstSent(text); }
    SentIsPrefix(text, done, rest);
    RunStarts(text, acks, fails);
    assert acks[taken..] == acks && trace == [Sent(Start(0, |text|))];
    while rest != []
      invariant Valid(rest) && Pieces(text) == done + Pieces(rest) && sequence == 1 + |done| && taken <= |acks|
      invariant sent == SentSoFar(text, done) < Transfer(text) && |sent| == sequence
      invariant forall i :: 0 <= i < |sent| ==> !fails(i)
      invariant Tells(trace, sent, acks[..taken], |done|, acked) && |done| - acked < WINDOW
      invariant |done| <= |pieces| && Continues(all, trace, Sending(pieces, |done|, acked, acks[taken..], fails))
      decreases |rest|
    {
      CutProgress(rest);
      PiecesNext(rest);
      var cut := FindCut(rest);
      SendingNext(all, trace, pieces, |done|, acked, acks[taken..], fails);
      assert pieces[|done|] == rest[..cut];
      if fails(sequence) { return ChannelFailed, sent, trace; }
      var chunk := Chunk(sequence, rest[..cut]);
      SentNext(trace, sent, acks[..taken], |done|, acked, chunk);
      PieceSent(text, done, rest[..cut]);
      sent, trace, done := sent + [chunk], trace + [Sent(chunk)], done + [rest[..cut]];
      SentIsPrefix(text, done, rest[cut..]);
      var ok;
      ok, acked, taken, trace := AwaitWindow(sequence, acked, acks, taken, sent, trace, pieces, fails, all);
      if !ok { return AcksEnded, sent, trace; }
      sequence := sequence + 1;
      rest := rest[cut..];
    }
    SentIsPrefix(text, done, rest);
    NoPieces(done, rest, pieces);
    SendingNext(all, trace, pieces, |done|, acked, acks[taken..], fails);
    if fails(sequence) { return ChannelFailed, sent, trace; }
    SentNext(trace, sent, acks[..taken], |done|, acked, End(sequence));
    sent, trace := sent + [End(sequence)], trace + [Sent(End(sequence))];
    return Delivered, sent, trace;
  }

  lemma NoPieces(done: seq<Bytes>, rest: Bytes, pieces: seq<Bytes>)
    requires Valid(rest) && rest == [] && pieces == done + Pieces(rest)
    ensures |done| == |pieces|
  {
  }

  lemma RunStarts(text: Bytes, acks: seq<nat>, fails: nat -> bool)
    requires Valid(text) && !fails(0)
    ensures Continues(SendRun(text, acks, fails), [Sent(Start(0, |text|))], Sending(Pieces(text), 0, 0, acks, fails))
  {
  }

  /** With room in the window, the next message is sent or refused. */
  lemma SendingNext(all: (Outcome, seq<Event>), trace: seq<Event>, pieces: seq<Bytes>, sent: nat, acked: nat, acks: seq<nat>,
                    fails: nat -> bool)
    requires sent <= |pieces| && sent - acked < WINDOW && Continues(all, trace, Sending(pieces, sent, acked, acks, fails))
    ensures fails(sent + 1) ==> all == (ChannelFailed, trace)
    ensures !fails(sent + 1) && sent == |pieces| ==> all == (Delivered, trace + [Sent(End(sent + 1))])
    ensures !fails(sent + 1) && sent < |pieces| ==>
              Continues(all, trace + [Sent(Chunk(sent + 1, pieces[sent]))], Sending(pieces, sent + 1, acked, acks, fails))
  {
    assert trace + [] == trace;
    if !fails(sent + 1) && sent < |pieces| {
      ContinuesBy(all, trace, Sent(Chunk(sent + 1, pieces[sent])), Sending(pieces, sent, acked, acks, fails),
                  Sending(pieces, sent + 1, acked, acks, fails));
    }
  }

  lemma FirstSent(text: Bytes)
    ensures SentSoFar(text, []) == [Start(0, |text|)]
  {
  }

  lemma EmptyTrace()
    ensures Tells([], [], [], 0, 0)
  {
  }

  lemma PiecesNext(rest: Bytes)
    requires Valid(rest) && rest != []
    ensures Cut(rest) <= |rest| && Valid(rest[Cut(rest)..])
    ensures Pieces(rest) == [rest[..Cut(rest)]] + Pieces(rest[Cut(rest)..])
  {
    CutProgress(rest);
  }

  // ---- the sender together with a receiver that acknowledges every chunk ----

  /** Chunks and acknowledgements under way; the receiver has taken the first `delivered` chunks. */
  datatype Net = Net(total: nat, sent: nat, acked: nat, delivered: nat, chunks: seq<nat>, acks: seq<nat>)

  datatype Move = SendNext | DeliverNext | TakeAck(index: nat)

  function Initial(total: nat): Net { Net(total, 0, 0, 0, [], []) }

  predicate Blocked(n: Net) { n.sent - n.acked >= WINDOW }

  predicate Finished(n: Net) { n.sent == n.total && !Blocked(n) }

  /** Chunks are delivered in order; acknowledgements may overtake each other; the sender takes one only while it waits. */
  predicate Possible(n: Net, m: Move) {
    match m
    case SendNext => n.sent < n.total && !Blocked(n)
    case DeliverNext => n.chunks != []
    case TakeAck(index) => Blocked(n) && index < |n.acks|
  }

  function Next(n: Net, m: Move): Net
    requires Possible(n, m)
  {
    match m
    case SendNext => n.(sent := n.sent + 1, chunks := n.chunks + [n.sent + 1])
    case DeliverNext => n.(delivered := n.delivered + 1, chunks := n.chunks[1..], acks := n.acks + [n.chunks[0]])
    case TakeAck(index) =>
      n.(acked := Covered(n.acked, n.sent, n.acks[index]), acks := n.acks[..index] + n.acks[index + 1..])
  }

  function Play(total: nat, moves: seq<Move>): Net {
    if moves == [] then Initial(total)
    else
      var n, m := Play(total, moves[..|moves| - 1]), moves[|moves| - 1];
      if Possible(n, m) then Next(n, m) else n
  }

  /** Every chunk sent is still under way, or its acknowledgement is, or it is covered. */
  ghost predicate Tracked(n: Net) {
    && n.acked <= n.sent <= n.total && n.sent - n.acked <= WINDOW
    && n.delivered + |n.chunks| == n.sent
    && (forall i :: 0 <= i < |n.chunks| ==> n.chunks[i] == n.delivered + 1 + i)
    && (forall k :: 1 <= k <= n.delivered ==> k in n.acks || k <= n.acked)
  }

  lemma TrackedNext(n: Net, m: Move)
    requires Tracked(n) && Possible(n, m)
    ensures Tracked(Next(n, m))
  {
    var after := Next(n, m);
    match m
    case SendNext =>
    case DeliverNext =>
      assert n.chunks[0] == n.delivered + 1;
      forall k | 1 <= k <= after.delivered ensures k in after.acks || k <= after.acked {
        if k == after.delivered { assert after.acks[|n.acks|] == k; }
        else if k in n.acks { var i :| 0 <= i < |n.acks| && n.acks[i] == k; assert after.acks[i] == k; }
      }
    case TakeAck(index) =>
      forall k | 1 <= k <= after.delivered ensures k in after.acks || k <= after.acked {
        if k in n.acks {
          var i :| 0 <= i < |n.acks| && n.acks[i] == k;
          if i < index { assert after.acks[i] == k; }
          if i > index { assert after.acks[i - 1] == k; }
        }
      }
  }

  lemma {:induction false} AlwaysTracked(total: nat, moves: seq<Move>)
    ensures Tracked(Play(total, moves)) && Play(total, moves).total == total
  {
    if moves != [] {
      hide Tracked;
      var n := Play(total, moves[..|moves| - 1]);
      AlwaysTracked(total, moves[..|moves| - 1]);
      if Possible(n, moves[|moves| - 1]) { TrackedNext(n, moves[|moves| - 1]); }
    }
    assert Tracked(Initial(total));
  }

  /** Whenever the sender waits, a chunk or an acknowledgement is still under way: some move is always possible until the end. */
  lemma NeverStuck(total: nat, moves: seq<Move>)
    ensures var n := Play(total, moves);
      && (Blocked(n) ==> n.chunks != [] || n.acks != [])
      && (Finished(n) || exists m :: Possible(n, m))
  {
    AlwaysTracked(total, moves);
    var n := Play(total, moves);
    if Blocked(n) {
      if n.chunks == [] {
        assert n.sent in n.acks;
        assert Possible(n, TakeAck(0));
      } else {
        assert Possible(n, DeliverNext);
      }
    } else if n.sent < n.total {
      assert Possible(n, SendNext);
    }
  }

  // ---- the composition is about the sender ----

  function Never(index: nat): bool { false }

  /** What the sender does in a play: the chunks it sends and the acknowledgements it takes. */
  ghost function SenderTrace(pieces: seq<Bytes>, moves: seq<Move>): seq<Event> {
    if moves == [] then []
    else
      var before, m := moves[..|moves| - 1], moves[|moves| - 1];
      var n := Play(|pieces|, before);
      SenderTrace(pieces, before)
      + if !Possible(n, m) then []
        else match m
          case SendNext => if n.sent < |pieces| then [Sent(Chunk(n.sent + 1, pieces[n.sent]))] else []
          case DeliverNext => []
          case TakeAck(index) => [Got(n.acks[index])]
  }

  /** Given the acknowledgements taken in a play, the sender does what it does in the play, and is then where the play is. */
  lemma {:induction false} PlayIsSending(pieces: seq<Bytes>, moves: seq<Move>, more: seq<nat>)
    ensures var n, trace := Play(|pieces|, moves), SenderTrace(pieces, moves);
      && n.sent <= |pieces|
      && Continues(Sending(pieces, 0, 0, AcksTaken(trace) + more, Never), trace, Sending(pieces, n.sent, n.acked, more, Never))
  {
    hide Sending, Continues, Covered;
    if moves == [] {
      assert AcksTaken([]) + more == more;
      NothingDone(Sending(pieces, 0, 0, more, Never));
    } else {
      var before, m := moves[..|moves| - 1], moves[|moves| - 1];
      var n, trace := Play(|pieces|, before), SenderTrace(pieces, before);
      AlwaysTracked(|pieces|, before);
      if Possible(n, m) && m.TakeAck? {
        var ack := n.acks[m.index];
        PlayIsSending(pieces, before, [ack] + more);
        TraceNext(trace, Got(ack));
        assert AcksTaken(trace) + ([ack] + more) == AcksTaken(trace) + [ack] + more;
        AckTaken(Sending(pieces, 0, 0, AcksTaken(trace) + [ack] + more, Never), trace, pieces, n.sent, n.acked, ack, more);
      } else {
        PlayIsSending(pieces, before, more);
        if Possible(n, m) && m.SendNext? {
          TraceNext(trace, Sent(Chunk(n.sent + 1, pieces[n.sent])));
          assert AcksTaken(trace) + [] == AcksTaken(trace);
          SendingNext(Sending(pieces, 0, 0, AcksTaken(trace) + more, Never), trace, pieces, n.sent, n.acked, more, Never);
        } else {
          assert trace + [] == trace;
        }
      }
    }
  }

  /** The chunk numbered `k` is the message with the `k`-th piece. */
  lemma {:induction false} PlayMessages(pieces: seq<Bytes>, moves: seq<Move>)
    ensures var n := Play(|pieces|, moves);
      n.sent <= |pieces| && Messages(SenderTrace(pieces, moves)) == ChunkMessages(pieces[..n.sent], 1)
  {
    if moves != [] {
      var before, m := moves[..|moves| - 1], moves[|moves| - 1];
      var n, trace := Play(|pieces|, before), SenderTrace(pieces, before);
      AlwaysTracked(|pieces|, before);
      PlayMessages(pieces, before);
      if Possible(n, m) {
        match m
        case SendNext => TraceNext(trace, Sent(Chunk(n.sent + 1, pieces[n.sent])));
        case TakeAck(index) => TraceNext(trace, Got(n.acks[index]));
        case DeliverNext => assert trace + [] == trace;
      } else {
        assert trace + [] == trace;
      }
    }
  }

  lemma NothingDone(all: (Outcome, seq<Event>))
    ensures Continues(all, [], all)
  {
  }

  lemma AckTaken(all: (Outcome, seq<Event>), trace: seq<Event>, pieces: seq<Bytes>, sent: nat, acked: nat, ack: nat, more: seq<nat>)
    requires sent <= |pieces| && sent - acked >= WINDOW
    requires Continues(all, trace, Sending(pieces, sent, acked, [ack] + more, Never))
    ensures Continues(all, trace + [Got(ack)], Sending(pieces, sent, Covered(acked, sent, ack), more, Never))
  {
    assert ([ack] + more)[1..] == more;
    ContinuesBy(all, trace, Got(ack), Sending(pieces, sent, acked, [ack] + more, Never),
                Sending(pieces, sent, Covered(acked, sent, ack), more, Never));
  }

  /**
   * With the acknowledgements that it takes in a play, the sender waits exactly where the play has it blocked, and it
   * delivers exactly when the play is finished; in both cases it has done just what it did in the play.
   */
  lemma SenderFollowsPlay(text: Bytes, moves: seq<Move>)
    requires Valid(text)
    ensures var n, trace := Play(|Pieces(text)|, moves), SenderTrace(Pieces(text), moves);
      var r := SendRun(text, AcksTaken(trace), Never);
      && (Blocked(n) ==> r == (AcksEnded, [Sent(Start(0, |text|))] + trace))
      && (Finished(n) ==> r == (Delivered, [Sent(Start(0, |text|))] + trace + [Sent(End(n.total + 1))]))
  {
    var pieces := Pieces(text);
    var n, trace := Play(|pieces|, moves), SenderTrace(pieces, moves);
    PlayIsSending(pieces, moves, []);
    AlwaysTracked(|pieces|, moves);
    assert AcksTaken(trace) + [] == AcksTaken(trace);
    hide *;
    AfterStart(text, AcksTaken(trace), trace, Sending(pieces, n.sent, n.acked, [], Never));
    SenderAt(pieces, n);
    assert [Sent(Start(0, |text|))] + trace + [] == [Sent(Start(0, |text|))] + trace;
  }

  lemma AfterStart(text: Bytes, acks: seq<nat>, trace: seq<Event>, rest: (Outcome, seq<Event>))
    requires Valid(text) && Continues(Sending(Pieces(text), 0, 0, acks, Never), trace, rest)
    ensures SendRun(text, acks, Never) == (rest.0, [Sent(Start(0, |text|))] + trace + rest.1)
  {
    hide Sending, Pieces, Valid;
    assert [Sent(Start(0, |text|))] + (trace + rest.1) == [Sent(Start(0, |text|))] + trace + rest.1;
  }

  lemma SenderAt(pieces: seq<Bytes>, n: Net)
    requires n.sent <= |pieces| == n.total
    ensures Blocked(n) ==> Sending(pieces, n.sent, n.acked, [], Never) == (AcksEnded, [])
    ensures Finished(n) ==> Sending(pieces, n.sent, n.acked, [], Never) == (Delivered, [Sent(End(n.total + 1))])
  {
  }

  /** Every move uses up part of a finite budget, so every run comes to its end. */
  function Budget(n: Net): int { 3 * (n.total - n.sent) + 2 * |n.chunks| + |n.acks| }

  lemma MovesEnd(total: nat, moves: seq<Move>, m: Move)
    requires Possible(Play(total, moves), m)
    ensures 0 <= Budget(Next(Play(total, moves), m)) < Budget(Play(total, moves))
  {
    AlwaysTracked(total, moves);
  }

  /** The receiver takes the pieces in order, without a gap: what it has taken is the beginning of the text. */
  lemma DeliveredInOrder(text: Bytes, moves: seq<Move>)
    requires Valid(text)
    ensures var n := Play(|Pieces(text)|, moves);
      && n.delivered <= |Pieces(text)|
      && (n.chunks != [] ==> n.chunks[0] == n.delivered + 1)
      && Flat(Pieces(text)[..n.delivered]) <= text
      && (n.delivered == |Pieces(text)| ==> Flat(Pieces(text)[..n.delivered]) == text)
      && n.sent <= |Pieces(text)| && Messages(SenderTrace(Pieces(text), moves)) == ChunkMessages(Pieces(text)[..n.sent], 1)
  {
    hide Valid, Pieces, Messages, SenderTrace;
    PlayMessages(Pieces(text), moves);
    AlwaysTracked(|Pieces(text)|, moves);
    PiecesShape(text);
    var n := Play(|Pieces(text)|, moves);
    FlatPrefix(Pieces(text), n.delivered);
    if n.delivered == |Pieces(text)| { assert Pieces(text)[..n.delivered] == Pieces(text); }
  }

  lemma {:induction false} FlatPrefix(pieces: seq<Bytes>, k: nat)
    requires k <= |pieces|
    ensures Flat(pieces[..k]) <= Flat(pieces)
  {
    if k > 0 {
      FlatPrefix(pieces[1..], k - 1);
      assert pieces[..k][1..] == pieces[1..][..k - 1];
    }
  }
}
