/** When a cache tree can be hashed, and what its fingerprint counts, said of the tree alone. */
module CacheCensus {
  import opened Bytes
  import opened Wrappers
  import opened FileTree
  import opened CacheTree
  import opened CacheDescriptor
  import opened Text
  import Utf8

  // ---- what obstructs a walk ----

  /** The components of `place` lead from `node` to `inner`. */
  ghost predicate At(node: Tree, place: Place, inner: Tree) {
    if place == [] then node == inner
    else node.Dir? && exists i :: 0 <= i < |node.entries| && Via(node.entries[i], place, inner)
  }

  ghost predicate Via(entry: Entry<Bytes>, place: Place, inner: Tree)
    requires place != []
  {
    entry.name == place[0] && At(entry.node, place[1..], inner)
  }

  /** A directory too deep, a file too long or without a printable path, or neither file nor directory. */
  ghost predicate Unfit(place: Place, depth: nat, node: Tree) {
    match node
    case Dir(_) => depth > 16
    case File(content) =>
      || |content| > 0x1000_0000
      || exists k :: 0 <= k < |place| && (place[k].None? || place[k].value == [] || Utf8.HasControl(place[k].value))
    case _ => true
  }

  ghost predicate Obstacle(node: Tree, here: Place, depth: nat, place: Place, inner: Tree) {
    At(node, place, inner) && Unfit(here + place, depth + |place|, inner)
  }

  ghost predicate Hindered(node: Tree, here: Place, depth: nat) {
    exists place, inner :: Obstacle(node, here, depth, place, inner)
  }

  /** The walk is obstructed exactly when something that it meets is unfit. */
  lemma {:induction false} ObstructedExact(node: Tree, here: Place, depth: nat)
    requires node.Dir?
    ensures Obstructed(node, here, depth) <==> Hindered(node, here, depth)
    decreases node, 0
  {
    if Obstructed(node, here, depth) {
      if depth > MAX_DEPTH {
        assert here + [] == here;
        assert Obstacle(node, here, depth, [], node);
      } else {
        var i :| 0 <= i < |node.entries| && EntryObstructed(node.entries[i], here, depth);
        var entry := node.entries[i];
        EntryExact(entry, here, depth);
        var place, inner :| Obstacle(entry.node, here + [entry.name], depth + 1, place, inner);
        var whole := [entry.name] + place;
        assert whole[1..] == place && Via(entry, whole, inner);
        assert here + [entry.name] + place == here + whole;
        assert Obstacle(node, here, depth, whole, inner);
      }
    }
    if place, inner :| Obstacle(node, here, depth, place, inner) {
      if place == [] {
        assert here + place == here;
      } else {
        var i :| 0 <= i < |node.entries| && Via(node.entries[i], place, inner);
        assert here + [place[0]] + place[1..] == here + place;
        assert Obstacle(node.entries[i].node, here + [place[0]], depth + 1, place[1..], inner);
        EntryExact(node.entries[i], here, depth);
      }
    }
  }

  lemma {:induction false} EntryExact(entry: Entry<Bytes>, here: Place, depth: nat)
    ensures EntryObstructed(entry, here, depth) <==> Hindered(entry.node, here + [entry.name], depth + 1)
    decreases entry, 1
  {
    var inside := here + [entry.name];
    if entry.node.Dir? {
      ObstructedExact(entry.node, inside, depth + 1);
    } else {
      assert inside + [] == inside;
      assert Obstacle(entry.node, inside, depth + 1, [], entry.node) <==> EntryObstructed(entry, here, depth);
    }
  }

  // ---- what is in a tree ----

  /** Entries listed, files, bytes in files, and bytes in the paths of the files. */
  datatype Census = Census(entries: nat, files: nat, bytes: nat, paths: nat)
  {
    function Plus(other: Census): Census {
      Census(entries + other.entries, files + other.files, bytes + other.bytes, paths + other.paths)
    }
  }

  /** The first `count` entries of a directory whose entries have `above` bytes of path in front of their names. */
  ghost function CensusOf(node: Tree, above: nat, count: nat): Census
    requires node.Dir? && count <= |node.entries|
    decreases node, count
  {
    if count == 0 then Census(0, 0, 0, 0)
    else CensusOf(node, above, count - 1).Plus(EntryCensus(node.entries[count - 1], above))
  }

  ghost function EntryCensus(entry: Entry<Bytes>, above: nat): Census
    decreases entry
  {
    var path := above + if entry.name.Some? then |entry.name.value| else 0;
    match entry.node
    case File(content) => Census(1, 1, |content|, path)
    case Dir(entries) => CensusOf(entry.node, path + 1, |entries|).Plus(Census(1, 0, 0, 0))
    case _ => Census(1, 0, 0, 0)
  }

  ghost function CacheCensus(root: Tree): Census
    requires root.Dir?
  {
    CensusOf(root, 0, |root.entries|)
  }

  /** The length of what stands in front of a name in `here`. */
  function Above(here: Place): nat {
    |Portable(here)| + if here == [] then 0 else 1
  }

  /** The path of a file is its components with a slash between any two. */
  lemma PortableExact(here: Place, name: Bytes)
    ensures Portable(here + [Some(name)]) == if here == [] then name else Portable(here) + [47] + name
  {
    assert Values(here + [Some(name)]) == Values(here) + [name];
    assert Portable(here) == Join(Values(here), SLASH) && Portable(here + [Some(name)]) == Join(Values(here + [Some(name)]), SLASH);
    JoinAppend(Values(here), name);
  }

  lemma {:induction false} JoinAppend(parts: seq<Bytes>, last: Bytes)
    ensures Join(parts + [last], SLASH) == if parts == [] then last else Join(parts, SLASH) + [47] + last
  {
    if parts != [] {
      assert (parts + [last])[1..] == parts[1..] + [last];
      JoinAppend(parts[1..], last);
    }
  }

  lemma PortableLength(here: Place, name: Option<Bytes>)
    ensures |Portable(here + [name])| == Above(here) + if name.Some? then |name.value| else 0
  {
    var last := if name.Some? then name.value else [];
    assert Values(here + [name]) == Values(here) + [last];
    assert Portable(here) == Join(Values(here), SLASH) && Portable(here + [name]) == Join(Values(here + [name]), SLASH);
    JoinAppend(Values(here), last);
  }

  // ---- sums over records, in whatever order ----

  function PathSize(file: CacheFile): nat { |file.path| }

  function Length(file: CacheFile): nat { file.length }

  function Weigh(files: seq<CacheFile>, size: CacheFile -> nat): nat {
    if files == [] then 0 else Weigh(files[..|files| - 1], size) + size(files[|files| - 1])
  }

  lemma {:induction false} WeighConcat(a: seq<CacheFile>, b: seq<CacheFile>, size: CacheFile -> nat)
    ensures Weigh(a + b, size) == Weigh(a, size) + Weigh(b, size)
  {
    if b == [] {
      assert a + b == a;
    } else {
      WeighConcat(a, b[..|b| - 1], size);
      assert (a + b)[..|a + b| - 1] == a + b[..|b| - 1];
    }
  }

  lemma {:induction false} WeighOrder(a: seq<CacheFile>, b: seq<CacheFile>, size: CacheFile -> nat)
    requires multiset(a) == multiset(b)
    ensures Weigh(a, size) == Weigh(b, size)
    decreases |a|
  {
    if a == [] {
      assert |multiset(b)| == |b|;
    } else {
      var j := LastElsewhere(a, b);
      WeighOrder(a[..|a| - 1], b[..j] + b[j + 1..], size);
      assert b == b[..j] + [b[j]] + b[j + 1..];
      WeighConcat(b[..j] + [b[j]], b[j + 1..], size);
      WeighConcat(b[..j], [b[j]], size);
      WeighConcat(b[..j], b[j + 1..], size);
    }
  }

  ghost function Weight(files: multiset<CacheFile>, size: CacheFile -> nat): nat { Weigh(Listed(files), size) }

  lemma WeightPlus(a: multiset<CacheFile>, b: multiset<CacheFile>, size: CacheFile -> nat)
    ensures Weight(a + b, size) == Weight(a, size) + Weight(b, size)
  {
    WeighOrder(Listed(a + b), Listed(a) + Listed(b), size);
    WeighConcat(Listed(a), Listed(b), size);
  }

  lemma WeightOne(f: CacheFile, size: CacheFile -> nat)
    ensures Weight(multiset{f}, size) == size(f)
  {
    WeighOrder(Listed(multiset{f}), [f], size);
  }

  lemma WeightNone(size: CacheFile -> nat)
    ensures Weight(multiset{}, size) == 0
  {
    assert |Listed(multiset{})| == |multiset(Listed(multiset{}))|;
  }

  lemma {:induction false} LengthsWeigh(files: seq<CacheFile>)
    ensures TotalLength(files) == Weigh(files, Length)
  {
    if files != [] {
      LengthsWeigh(files[1..]);
      assert files == [files[0]] + files[1..];
      WeighConcat([files[0]], files[1..], Length);
    }
  }

  lemma {:induction false} RecordsSize(files: seq<CacheFile>)
    ensures |Records(files)| == 48 * |files| + Weigh(files, PathSize)
  {
    if files != [] {
      RecordsSize(files[1..]);
      assert files == [files[0]] + files[1..];
      WeighConcat([files[0]], files[1..], PathSize);
    }
  }

  // ---- the tally of a walk is the census of the tree ----

  ghost predicate Counts(tally: Tally, census: Census) {
    && tally.entries == census.entries && |tally.files| == census.files
    && tally.bytes == census.bytes == Weight(tally.files, Length)
    && Weight(tally.files, PathSize) == census.paths
  }

  lemma CountsPlus(t: Tally, c: Census, u: Tally, d: Census)
    requires Counts(t, c) && Counts(u, d)
    ensures Counts(t.Plus(u), c.Plus(d))
  {
    hide Weight;
    WeightPlus(t.files, u.files, Length);
    WeightPlus(t.files, u.files, PathSize);
  }

  lemma {:induction false} TallyCounts(node: Tree, here: Place, count: nat, digest: Digest)
    requires node.Dir? && count <= |node.entries|
    ensures Counts(TallyOf(node, here, count, digest), CensusOf(node, Above(here), count))
    decreases node, 0, count
  {
    hide Weight, Above, EntryTally, EntryCensus;
    if count == 0 {
      WeightNone(Length);
      WeightNone(PathSize);
    } else {
      TallyCounts(node, here, count - 1, digest);
      EntryCounted(node.entries[count - 1], here, digest);
      CountsPlus(TallyOf(node, here, count - 1, digest), CensusOf(node, Above(here), count - 1),
                 EntryTally(node.entries[count - 1], here, digest), EntryCensus(node.entries[count - 1], Above(here)));
    }
  }

  lemma {:induction false} EntryCounted(entry: Entry<Bytes>, here: Place, digest: Digest)
    ensures Counts(EntryTally(entry, here, digest), EntryCensus(entry, Above(here)))
    decreases entry, 1
  {
    hide Weight, Portable, TallyOf, CensusOf;
    var inside := here + [entry.name];
    PortableLength(here, entry.name);
    WeightNone(Length);
    WeightNone(PathSize);
    match entry.node
    case File(content) =>
      var f := CacheFile(Portable(inside), |content|, digest(content));
      WeightOne(f, Length);
      WeightOne(f, PathSize);
    case Dir(entries) =>
      TallyCounts(entry.node, inside, |entries|, digest);
      CountsPlus(TallyOf(entry.node, inside, |entries|, digest), CensusOf(entry.node, Above(inside), |entries|),
                 Tally(multiset{}, 1, 0), Census(1, 0, 0, 0));
    case _ =>
  }

  /** The files of the walk, sorted and encoded: how many, how long, and how long their descriptor is. */
  lemma EntriesMeasure(root: Tree, digest: Digest, entries: seq<CacheFile>)
    requires root.Dir? && multiset(entries) == Whole(root, [], digest).files
    ensures |entries| == CacheCensus(root).files
    ensures TotalLength(Sorted(entries)) == CacheCensus(root).bytes
    ensures |Encode(Sorted(entries))| == 26 + 48 * CacheCensus(root).files + CacheCensus(root).paths
  {
    hide Sorted, TotalLength, Records, Weigh, TallyOf, CensusOf;
    TallyCounts(root, [], |root.entries|, digest);
    var sorted := Sorted(entries);
    assert Above([]) == 0;
    assert |multiset(sorted)| == |sorted| && |multiset(entries)| == |entries|;
    WeighOrder(sorted, Listed(multiset(sorted)), Length);
    WeighOrder(sorted, Listed(multiset(sorted)), PathSize);
    LengthsWeigh(sorted);
    RecordsSize(sorted);
  }

  // ---- when a tree has a fingerprint ----

  /** Nothing in the way, and within the limits of the program. */
  ghost predicate Hashable(root: Tree)
    requires root.Dir?
  {
    var census := CacheCensus(root);
    && (forall place, inner :: At(root, place, inner) ==> !Unfit(place, |place|, inner))
    && census.entries <= 100_000
    && census.bytes <= 0x4000_0000
    && census.files >= 1
    && 26 + 48 * census.files + census.paths <= 0x200_0000
  }

  lemma NothingUnfit(root: Tree)
    requires root.Dir?
    ensures !Obstructed(root, [], 0) <==> forall place, inner :: At(root, place, inner) ==> !Unfit(place, |place|, inner)
  {
    ObstructedExact(root, [], 0);
    forall place, inner ensures Obstacle(root, [], 0, place, inner) <==> At(root, place, inner) && Unfit(place, |place|, inner) {
      assert [] + place == place;
    }
  }

  /** A tree has a fingerprint exactly when it is hashable; it counts the files of the tree and their bytes. */
  lemma FingerprintExact(root: Tree, digest: Digest)
    requires root.Dir?
    ensures FingerprintFor(root, digest).Some? <==> Hashable(root)
    ensures FingerprintFor(root, digest).Some? ==>
              && FingerprintFor(root, digest).value.files == CacheCensus(root).files
              && FingerprintFor(root, digest).value.bytes == CacheCensus(root).bytes
  {
    hide Sorted, TotalLength, Encode, TallyOf, CensusOf, Obstructed, At, Unfit, Weigh;
    var entries := Listed(Whole(root, [], digest).files);
    NothingUnfit(root);
    TallyCounts(root, [], |root.entries|, digest);
    assert Above([]) == 0;
    EntriesMeasure(root, digest, entries);
  }

  ghost predicate IsDescriptor(root: Tree, digest: Digest, files: seq<CacheFile>) {
    Ascending(files) && forall f :: f in files <==> Recorded(root, [], digest, f)
  }

  /** Its hash digests the descriptor of the files of the tree, in ascending order of their paths. */
  lemma FingerprintHash(root: Tree, digest: Digest) returns (files: seq<CacheFile>)
    requires root.Dir? && PlainNames(root) && FingerprintFor(root, digest).Some?
    ensures IsDescriptor(root, digest, files) && FingerprintFor(root, digest).value.hash == digest(Encode(files))
  {
    hide Sorted, TotalLength, Encode, Obstructed, Whole, PlainNames, Recorded;
    var whole := Whole(root, [], digest).files;
    var entries := Listed(whole);
    WholeDistinct(root, digest);
    files := Sorted(entries);
    SortedAscending(entries);
    forall f ensures f in files <==> Recorded(root, [], digest, f) {
      WholeRecords(root, [], digest, f);
      assert f in files <==> f in multiset(files);
    }
  }
}
