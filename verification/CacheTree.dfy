/** Walking a compiler cache tree: an explicit stack of directories, in whatever order they list their entries. */
module CacheTree {
  import opened Bytes
  import opened Wrappers
  import opened Text
  import opened FileTree
  import Utf8

  const MAX_DEPTH := 16
  const MAX_ENTRIES := 100_000
  const MAX_FILE_BYTES := 0x1000_0000   // 256 MiB
  const MAX_TOTAL_BYTES := 0x4000_0000  // 1 GiB
  const SLASH: byte := 47

  type Tree = Node<Bytes>
  type Hash = h: Bytes | |h| == 32
    witness [0, 0, 0, 0, 0, 0, 0, 0] + [0, 0, 0, 0, 0, 0, 0, 0] + [0, 0, 0, 0, 0, 0, 0, 0] + [0, 0, 0, 0, 0, 0, 0, 0]
  type Digest = Bytes -> Hash

  /** One record of the cache: the path relative to the root, the length and the content hash. */
  datatype CacheFile = CacheFile(path: Bytes, length: nat, hash: Hash)

  /** A component of the path to an entry; `None` is not Unicode. */
  type Place = seq<Option<Bytes>>

  function Portable(here: Place): Bytes {
    Join(seq(|here|, i requires 0 <= i < |here| => if here[i].Some? then here[i].value else []), SLASH)
  }

  predicate IsPortable(here: Place) {
    forall i :: 0 <= i < |here| ==> here[i].Some? && here[i].value != [] && !Utf8.HasControl(here[i].value)
  }

  /** What a part of the tree contributes: its files, the entries listed and the bytes hashed. */
  datatype Tally = Tally(files: multiset<CacheFile>, entries: nat, bytes: nat)
  {
    function Plus(other: Tally): Tally {
      Tally(files + other.files, entries + other.entries, bytes + other.bytes)
    }
  }

  const NOTHING := Tally(multiset{}, 0, 0)

  ghost function TallyOf(node: Tree, here: Place, count: nat, digest: Digest): Tally
    requires node.Dir? && count <= |node.entries|
    decreases node, count
  {
    if count == 0 then NOTHING
    else TallyOf(node, here, count - 1, digest).Plus(EntryTally(node.entries[count - 1], here, digest))
  }

  ghost function EntryTally(entry: Entry<Bytes>, here: Place, digest: Digest): Tally
    decreases entry
  {
    match entry.node
    case File(content) =>
      Tally(multiset{CacheFile(Portable(here + [entry.name]), |content|, digest(content))}, 1, |content|)
    case Dir(entries) => TallyOf(entry.node, here + [entry.name], |entries|, digest).Plus(Tally(multiset{}, 1, 0))
    case _ => Tally(multiset{}, 1, 0)
  }

  ghost function Whole(node: Tree, here: Place, digest: Digest): Tally
    requires node.Dir?
  {
    TallyOf(node, here, |node.entries|, digest)
  }

  /** Something in the tree that the walk refuses. */
  ghost predicate Obstructed(node: Tree, here: Place, depth: nat)
    requires node.Dir?
    decreases node
  {
    depth > MAX_DEPTH || exists i :: 0 <= i < |node.entries| && EntryObstructed(node.entries[i], here, depth)
  }

  ghost predicate EntryObstructed(entry: Entry<Bytes>, here: Place, depth: nat)
    decreases entry
  {
    match entry.node
    case File(content) => |content| > MAX_FILE_BYTES || !IsPortable(here + [entry.name])
    case Dir(_) => Obstructed(entry.node, here + [entry.name], depth + 1)
    case _ => true
  }

  datatype Pending = Pending(node: Tree, here: Place, depth: nat)

  ghost predicate Listable(pending: seq<Pending>) {
    forall i :: 0 <= i < |pending| ==> pending[i].node.Dir?
  }

  ghost function Owed(pending: seq<Pending>, digest: Digest): Tally
    requires Listable(pending)
  {
    if pending == [] then NOTHING
    else
      var last := pending[|pending| - 1];
      Owed(pending[..|pending| - 1], digest).Plus(Whole(last.node, last.here, digest))
  }

  ghost predicate SomeObstructed(pending: seq<Pending>)
    requires Listable(pending)
  {
    exists i :: 0 <= i < |pending| && Obstructed(pending[i].node, pending[i].here, pending[i].depth)
  }

  lemma Pushed(pending: seq<Pending>, item: Pending, digest: Digest)
    requires Listable(pending) && item.node.Dir?
    ensures Listable(pending + [item])
    ensures Owed(pending + [item], digest) == Owed(pending, digest).Plus(Whole(item.node, item.here, digest))
    ensures SomeObstructed(pending + [item]) <==> SomeObstructed(pending) || Obstructed(item.node, item.here, item.depth)
  {
    var both := pending + [item];
    assert both[..|pending|] == pending && both[|pending|] == item;
    if SomeObstructed(pending) {
      var i :| 0 <= i < |pending| && Obstructed(pending[i].node, pending[i].here, pending[i].depth);
      assert both[i] == pending[i];
    }
  }

  ghost function Found(entries: seq<CacheFile>, inspected: nat, total: nat): Tally {
    Tally(multiset(entries), inspected, total)
  }

  lemma {:induction false} TallyGrows(node: Tree, here: Place, i: nat, j: nat, digest: Digest)
    requires node.Dir? && i <= j <= |node.entries|
    ensures TallyOf(node, here, i, digest).entries <= TallyOf(node, here, j, digest).entries
    ensures TallyOf(node, here, i, digest).bytes <= TallyOf(node, here, j, digest).bytes
    decreases j
  {
    if i < j { TallyGrows(node, here, i, j - 1, digest); }
  }

  lemma TallyNext(node: Tree, here: Place, i: nat, digest: Digest)
    requires node.Dir? && i < |node.entries|
    ensures TallyOf(node, here, i + 1, digest) == TallyOf(node, here, i, digest).Plus(EntryTally(node.entries[i], here, digest))
  {
  }

  /** One entry: a directory is left for later, a file is hashed and recorded, anything else is refused. */
  method ListEntry(item: Pending, entry: Entry<Bytes>, entries0: seq<CacheFile>, total0: nat, digest: Digest)
    returns (entries: seq<CacheFile>, total: nat, later: Option<Pending>, ok: bool)
    requires total0 <= MAX_TOTAL_BYTES
    ensures later.Some? ==> later.value.node.Dir?
    ensures ok ==>
              && !(later.None? && EntryObstructed(entry, item.here, item.depth))
              && (later.Some? ==> (EntryObstructed(entry, item.here, item.depth)
                                   <==> Obstructed(later.value.node, later.value.here, later.value.depth)))
              && Found(entries, 1, total).Plus(if later.Some? then Whole(later.value.node, later.value.here, digest) else NOTHING)
                 == Found(entries0, 0, total0).Plus(EntryTally(entry, item.here, digest))
              && total <= MAX_TOTAL_BYTES
    ensures !ok ==> EntryObstructed(entry, item.here, item.depth)
                    || total0 + EntryTally(entry, item.here, digest).bytes > MAX_TOTAL_BYTES
  {
    entries, total, later, ok := entries0, total0, None, false;
    match entry.node
    case Dir(_) =>
      later, ok := Some(Pending(entry.node, item.here + [entry.name], item.depth + 1)), true;
    case File(content) =>
      if |content| > MAX_FILE_BYTES { return; }
      var remaining := MAX_TOTAL_BYTES - total;
      if |content| > remaining { return; }
      total := total + |content|;
      if !IsPortable(item.here + [entry.name]) { return; }
      entries := entries + [CacheFile(Portable(item.here + [entry.name]), |content|, digest(content))];
      ok := true;
    case _ =>
  }

  /** All entries of the directory on top of the stack. */
  method ListDirectory(pending0: seq<Pending>, entries0: seq<CacheFile>, inspected0: nat, total0: nat, digest: Digest)
    returns (pending: seq<Pending>, entries: seq<CacheFile>, inspected: nat, total: nat, ok: bool)
    requires Listable(pending0) && pending0 != [] && pending0[|pending0| - 1].depth <= MAX_DEPTH
    requires inspected0 <= MAX_ENTRIES && total0 <= MAX_TOTAL_BYTES
    ensures Listable(pending)
    ensures ok ==>
              && Found(entries, inspected, total).Plus(Owed(pending, digest))
                 == Found(entries0, inspected0, total0).Plus(Owed(pending0, digest))
              && (SomeObstructed(pending) <==> SomeObstructed(pending0))
              && inspected <= MAX_ENTRIES && total <= MAX_TOTAL_BYTES
              && |pending| - |pending0| < inspected - inspected0
    ensures !ok ==>
              || SomeObstructed(pending0)
              || inspected0 + Owed(pending0, digest).entries > MAX_ENTRIES
              || total0 + Owed(pending0, digest).bytes > MAX_TOTAL_BYTES
  {
    hide TallyOf, EntryTally, Obstructed, EntryObstructed, Portable, IsPortable, Tally.Plus, Owed, Whole, Found;
    var item := pending0[|pending0| - 1];
    Pushed(pending0[..|pending0| - 1], item, digest);
    assert pending0[..|pending0| - 1] + [item] == pending0;
    pending, entries, inspected, total, ok := pending0[..|pending0| - 1], entries0, inspected0, total0, false;
    ghost var rest := pending;
    ghost var base := Found(entries0, inspected0, total0).Plus(Owed(rest, digest));
    var count := |item.node.entries|;
    WholeParts(item.node, item.here, digest);
    FoundParts(entries0, inspected0, total0);
    OpeningBalance(Found(entries0, inspected0, total0), Owed(rest, digest));
    TallyStart(item.node, item.here, digest);
    ObstructedByEntries(item);
    for i := 0 to count
      invariant Listable(pending) && inspected == inspected0 + i <= MAX_ENTRIES && total <= MAX_TOTAL_BYTES
      invariant Found(entries, inspected, total).Plus(Owed(pending, digest))
             == base.Plus(TallyOf(item.node, item.here, i, digest))
      invariant SomeObstructed(pending) || EntriesObstructed(item, i) <==> SomeObstructed(pending0)
      invariant |pending| < |pending0| + i
    {
      TallyNext(item.node, item.here, i, digest);
      TallyGrows(item.node, item.here, i + 1, count, digest);
      FoundParts(entries, inspected, total);
      ghost var listed, entryTally := TallyOf(item.node, item.here, i, digest), EntryTally(item.node.entries[i], item.here, digest);
      LimitsCarry(Found(entries, inspected, total), Owed(pending, digest), base, listed, entryTally,
                  Found(entries0, inspected0, total0), Owed(rest, digest), Whole(item.node, item.here, digest));
      EntryCounts(item.node.entries[i], item.here, digest);
      inspected := inspected + 1;
      if inspected > MAX_ENTRIES { return; }
      var later, fine;
      ghost var before, totalBefore := entries, total;
      entries, total, later, fine := ListEntry(item, item.node.entries[i], entries, total, digest);
      if !fine { return; }
      FoundParts(entries, 1, total);
      FoundParts(entries, inspected, total);
      FoundParts(before, 0, totalBefore);
      ghost var left := if later.Some? then Whole(later.value.node, later.value.here, digest) else NOTHING;
      Carried(Found(before, inspected - 1, totalBefore), Found(entries, inspected, total), Owed(pending, digest), left,
              entryTally, base, listed);
      if later.Some? {
        Pushed(pending, later.value, digest);
        pending := pending + [later.value];
      }
    }
    Associates(Found(entries0, inspected0, total0), Owed(rest, digest), TallyOf(item.node, item.here, count, digest));
    ok := true;
  }

  lemma OpeningBalance(found: Tally, owed: Tally)
    ensures found.Plus(owed) == found.Plus(owed).Plus(NOTHING)
  {
  }

  /** While a directory is listed, what has been found and the next entry stay within what was owed at first. */
  lemma LimitsCarry(found: Tally, owed: Tally, base: Tally, listed: Tally, entry: Tally, found0: Tally, rest: Tally, whole: Tally)
    requires found.Plus(owed) == base.Plus(listed) && base == found0.Plus(rest)
    requires listed.Plus(entry).entries <= whole.entries && listed.Plus(entry).bytes <= whole.bytes
    ensures found.entries + entry.entries <= found0.entries + rest.Plus(whole).entries
    ensures found.bytes + entry.bytes <= found0.bytes + rest.Plus(whole).bytes
  {
  }

  lemma FoundParts(entries: seq<CacheFile>, inspected: nat, total: nat)
    ensures Found(entries, inspected, total) == Tally(multiset(entries), inspected, total)
  {
  }

  lemma WholeParts(node: Tree, here: Place, digest: Digest)
    requires node.Dir?
    ensures Whole(node, here, digest) == TallyOf(node, here, |node.entries|, digest)
  {
  }

  lemma Associates(a: Tally, b: Tally, c: Tally)
    ensures a.Plus(b).Plus(c) == a.Plus(b.Plus(c))
  {
  }

  /** The balance after one entry: what is found grows, what is left for later is owed. */
  lemma Carried(found: Tally, after: Tally, owed: Tally, left: Tally, entry: Tally, base: Tally, listed: Tally)
    requires found.Plus(owed) == base.Plus(listed)
    requires after.entries == found.entries + 1
    requires Tally(after.files, 1, after.bytes).Plus(left) == Tally(found.files, 0, found.bytes).Plus(entry)
    ensures after.Plus(owed.Plus(left)) == base.Plus(listed.Plus(entry))
    ensures left == NOTHING ==> owed.Plus(left) == owed
  {
    var l := after.files + (owed.files + left.files);
    assert l == (after.files + left.files) + owed.files;
    assert l == (found.files + entry.files) + owed.files;
    assert l == (found.files + owed.files) + entry.files;
    assert l == (base.files + listed.files) + entry.files;
    assert owed.files + multiset{} == owed.files;
  }

  ghost predicate EntriesObstructed(item: Pending, from: nat)
    requires item.node.Dir?
  {
    exists i :: from <= i < |item.node.entries| && EntryObstructed(item.node.entries[i], item.here, item.depth)
  }

  lemma ObstructedByEntries(item: Pending)
    requires item.node.Dir? && item.depth <= MAX_DEPTH
    ensures Obstructed(item.node, item.here, item.depth) <==> EntriesObstructed(item, 0)
  {
  }

  lemma TallyStart(node: Tree, here: Place, digest: Digest)
    requires node.Dir?
    ensures TallyOf(node, here, 0, digest) == NOTHING
  {
  }

  lemma EntryCounts(entry: Entry<Bytes>, here: Place, digest: Digest)
    ensures EntryTally(entry, here, digest).entries >= 1
  {
  }

  /**
   * The walk of `hash_tectonic_cache_tree`. It succeeds exactly when nothing obstructs it and the limits hold,
   * and has then recorded every file of the tree once, whatever the listing order.
   */
  method CollectCacheFiles(root: Tree, digest: Digest) returns (entries: seq<CacheFile>, ok: bool)
    requires root.Dir?
    ensures ok ==> multiset(entries) == Whole(root, [], digest).files
    ensures ok <==>
              && !Obstructed(root, [], 0)
              && Whole(root, [], digest).entries <= MAX_ENTRIES
              && Whole(root, [], digest).bytes <= MAX_TOTAL_BYTES
  {
    hide TallyOf, EntryTally, EntryObstructed;
    entries, ok := [], false;
    var pending := [Pending(root, [], 0)];
    var inspected: nat, total: nat := 0, 0;
    Pushed([], pending[0], digest);
    assert [] + pending == pending;
    while pending != []
      invariant Listable(pending) && inspected <= MAX_ENTRIES && total <= MAX_TOTAL_BYTES
      invariant Found(entries, inspected, total).Plus(Owed(pending, digest)) == Whole(root, [], digest)
      invariant SomeObstructed(pending) <==> Obstructed(root, [], 0)
      decreases Owed(pending, digest).entries + |pending|
    {
      var item := pending[|pending| - 1];
      if item.depth > MAX_DEPTH {
        assert Obstructed(item.node, item.here, item.depth);
        return;
      }
      var fine;
      pending, entries, inspected, total, fine := ListDirectory(pending, entries, inspected, total, digest);
      if !fine { return; }
    }
    ok := true;
  }
}
