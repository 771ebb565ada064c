/** The canonical descriptor of a cache tree: its files sorted by path, each record with its lengths in front. */
module CacheDescriptor {
  import opened Bytes
  import opened Wrappers
  import opened Text
  import opened FileTree
  import opened CacheTree

  const PREAMBLE: Bytes := [111, 108, 101, 97, 102, 108, 121, 45, 116, 101, 99, 116, 111, 110, 105, 99, 45,
                            99, 97, 99, 104, 101, 45, 118, 49, 0] // "oleafly-tectonic-cache-v1\0"
  const MAX_DESCRIPTOR_BYTES := 0x200_0000 // 32 MiB

  // ---- the order of paths ----

  /** Strict lexicographic order on bytes. */
  predicate Less(a: Bytes, b: Bytes) {
    b != [] && (a == [] || a[0] < b[0] || (a[0] == b[0] && Less(a[1..], b[1..])))
  }

  /** What comes first is the shorter of two texts that go on alike, or has the smaller byte where they first differ. */
  lemma {:induction false} LessExact(a: Bytes, b: Bytes)
    ensures Less(a, b) <==>
            exists k :: 0 <= k <= |a| && k <= |b| && a[..k] == b[..k] && k < |b| && (k == |a| || a[k] < b[k])
  {
    if a == [] {
      assert a[..0] == b[..0];
    } else if b != [] && a[0] == b[0] {
      LessExact(a[1..], b[1..]);
      if Less(a, b) {
        var k :| 0 <= k <= |a[1..]| && k <= |b[1..]| && a[1..][..k] == b[1..][..k] && k < |b[1..]|
                 && (k == |a[1..]| || a[1..][k] < b[1..][k]);
        assert a[..k + 1] == [a[0]] + a[1..][..k] && b[..k + 1] == [b[0]] + b[1..][..k];
      }
      if k :| 0 <= k <= |a| && k <= |b| && a[..k] == b[..k] && k < |b| && (k == |a| || a[k] < b[k]) {
        assert k > 0;
        assert a[1..][..k - 1] == a[..k][1..] && b[1..][..k - 1] == b[..k][1..];
      }
    } else if b != [] {
      assert a[..0] == b[..0];
    }
  }

  lemma {:induction false} LessTotal(a: Bytes, b: Bytes)
    ensures Less(a, b) || a == b || Less(b, a)
  {
    if a != [] && b != [] {
      LessTotal(a[1..], b[1..]);
      assert a == [a[0]] + a[1..] && b == [b[0]] + b[1..];
    }
  }

  lemma {:induction false} LessTransitive(a: Bytes, b: Bytes, c: Bytes)
    requires Less(a, b) && Less(b, c)
    ensures Less(a, c)
  {
    if a != [] && a[0] == b[0] == c[0] { LessTransitive(a[1..], b[1..], c[1..]); }
  }

  lemma {:induction false} LessIrreflexive(a: Bytes)
    ensures !Less(a, a)
  {
    if a != [] { LessIrreflexive(a[1..]); }
  }

  /** Sorted by path, each path once. */
  ghost predicate Ascending(files: seq<CacheFile>) {
    forall i, j :: 0 <= i < j < |files| ==> Less(files[i].path, files[j].path)
  }

  function Insert(file: CacheFile, files: seq<CacheFile>): (r: seq<CacheFile>)
    ensures multiset(r) == multiset(files) + multiset{file}
  {
    if files == [] || !Less(files[0].path, file.path) then [file] + files
    else
      var r := [files[0]] + Insert(file, files[1..]);
      assert files == [files[0]] + files[1..];
      r
  }

  /** `sort_by` on the path. */
  function Sorted(files: seq<CacheFile>): (r: seq<CacheFile>)
    ensures multiset(r) == multiset(files)
  {
    if files == [] then []
    else
      assert files == [files[0]] + files[1..];
      Insert(files[0], Sorted(files[1..]))
  }

  ghost predicate DistinctPaths(files: multiset<CacheFile>) {
    && (forall f :: files[f] <= 1)
    && forall f, g :: f in files && g in files && f.path == g.path ==> f == g
  }

  lemma {:induction false} InsertAscending(file: CacheFile, files: seq<CacheFile>)
    requires Ascending(files) && forall g :: g in files ==> g.path != file.path
    ensures Ascending(Insert(file, files))
  {
    var r := Insert(file, files);
    if files == [] {
    } else if !Less(files[0].path, file.path) {
      assert files[0] in files;
      LessTotal(files[0].path, file.path);
      forall j | 0 < j < |r| ensures Less(file.path, r[j].path) {
        if j > 1 { LessTransitive(file.path, files[0].path, files[j - 1].path); }
      }
    } else {
      var rest := Insert(file, files[1..]);
      InsertAscending(file, files[1..]);
      forall g | g in rest ensures Less(files[0].path, g.path) {
        assert g in multiset(rest);
        if g != file {
          assert g in multiset(files[1..]);
          var k :| 0 <= k < |files[1..]| && files[1..][k] == g;
        }
      }
      forall j | 0 < j < |r| ensures Less(r[0].path, r[j].path) {
        assert r[j] == rest[j - 1];
      }
    }
  }

  lemma {:induction false} SortedAscending(files: seq<CacheFile>)
    requires DistinctPaths(multiset(files))
    ensures Ascending(Sorted(files))
  {
    if files != [] {
      var first, rest := files[0], files[1..];
      assert files == [first] + rest;
      assert multiset(files) == multiset{first} + multiset(rest);
      assert DistinctPaths(multiset(rest)) by {
        forall f ensures multiset(rest)[f] <= 1 { assert multiset(files)[f] >= multiset(rest)[f]; }
      }
      SortedAscending(rest);
      forall g | g in Sorted(rest) ensures g.path != first.path {
        assert g in multiset(Sorted(rest));
        assert g in multiset(rest);
        assert g in multiset(files) && first in multiset(files);
        assert multiset(files)[g] == multiset(rest)[g] + if g == first then 1 else 0;
      }
      InsertAscending(first, Sorted(rest));
    }
  }

  /** Two ascending lists with the same members are the same list. */
  lemma {:induction false} AscendingUnique(a: seq<CacheFile>, b: seq<CacheFile>)
    requires Ascending(a) && Ascending(b)
    requires forall f :: f in a <==> f in b
    ensures a == b
  {
    assert b == [] || b[0] in b;
    if a != [] {
      assert a[0] in b;
      assert b[0] in a;
      var i :| 0 <= i < |b| && b[i] == a[0];
      var j :| 0 <= j < |a| && a[j] == b[0];
      if i > 0 && j > 0 {
        LessTransitive(b[0].path, a[0].path, b[0].path);
        LessIrreflexive(b[0].path);
      }
      assert a[0] == b[0];
      forall f ensures f in a[1..] <==> f in b[1..] {
        TailMembers(a, f);
        TailMembers(b, f);
      }
      AscendingUnique(a[1..], b[1..]);
      assert a == [a[0]] + a[1..] && b == [b[0]] + b[1..];
    }
  }

  lemma TailMembers(a: seq<CacheFile>, f: CacheFile)
    requires Ascending(a) && a != []
    ensures f in a[1..] <==> f in a && f != a[0]
  {
    assert a == [a[0]] + a[1..];
    LessIrreflexive(a[0].path);
    if f in a[1..] {
      var k :| 0 <= k < |a[1..]| && a[1..][k] == f;
      assert Less(a[0].path, a[k + 1].path);
    }
  }

  // ---- the encoding ----

  function Record(file: CacheFile): Bytes {
    LittleEndian(|file.path|, 8) + file.path + LittleEndian(file.length, 8) + file.hash
  }

  function Records(files: seq<CacheFile>): Bytes {
    if files == [] then [] else Record(files[0]) + Records(files[1..])
  }

  function Encode(files: seq<CacheFile>): Bytes { PREAMBLE + Records(files) }

  predicate FitsU64(file: CacheFile) {
    |file.path| < 0x1_0000_0000_0000_0000 && file.length < 0x1_0000_0000_0000_0000
  }

  lemma RecordFields(f: CacheFile, rest: Bytes)
    ensures var a, n := Record(f) + rest, |f.path|;
      && |a| == 48 + n + |rest|
      && a[..8] == LittleEndian(n, 8) && a[8..8 + n] == f.path && a[8 + n..16 + n] == LittleEndian(f.length, 8)
      && a[16 + n..48 + n] == f.hash && a[48 + n..] == rest
  {
    hide LittleEndian;
    var a, n := Record(f) + rest, |f.path|;
    assert a == LittleEndian(n, 8) + (f.path + (LittleEndian(f.length, 8) + (f.hash + rest)));
  }

  /** The lengths in front make the encoding readable: the record at the front and what follows are determined. */
  lemma RecordDetermined(f: CacheFile, x: Bytes, g: CacheFile, y: Bytes)
    requires FitsU64(f) && FitsU64(g)
    requires Record(f) + x == Record(g) + y
    ensures f == g && x == y
  {
    hide LittleEndian, FromLittleEndian, Record;
    Widths();
    RecordFields(f, x);
    RecordFields(g, y);
    LittleEndianInverse(|f.path|, 8);
    LittleEndianInverse(|g.path|, 8);
    LittleEndianInverse(f.length, 8);
    LittleEndianInverse(g.length, 8);
  }

  lemma {:induction false} RecordsDetermined(a: seq<CacheFile>, b: seq<CacheFile>)
    requires forall f :: f in a || f in b ==> FitsU64(f)
    requires Records(a) == Records(b)
    ensures a == b
  {
    if a != [] && b != [] {
      RecordDetermined(a[0], Records(a[1..]), b[0], Records(b[1..]));
      RecordsDetermined(a[1..], b[1..]);
      assert a == [a[0]] + a[1..] && b == [b[0]] + b[1..];
    }
  }

  lemma EncodeDetermined(a: seq<CacheFile>, b: seq<CacheFile>)
    requires forall f :: f in a || f in b ==> FitsU64(f)
    ensures Encode(a) == Encode(b) <==> a == b
  {
    if Encode(a) == Encode(b) {
      assert Encode(a)[|PREAMBLE|..] == Records(a) && Encode(b)[|PREAMBLE|..] == Records(b);
      RecordsDetermined(a, b);
    }
  }

  // ---- from entries to a fingerprint ----

  datatype Fingerprint = Fingerprint(files: nat, bytes: nat, hash: Hash)

  function TotalLength(files: seq<CacheFile>): nat {
    if files == [] then 0 else files[0].length + TotalLength(files[1..])
  }

  ghost predicate Describable(entries: seq<CacheFile>) {
    && entries != []
    && TotalLength(Sorted(entries)) <= MAX_TOTAL_BYTES
    && |Encode(Sorted(entries))| <= MAX_DESCRIPTOR_BYTES
  }

  /** `hash_cache_entries`: within the limits, the digest of the one canonical encoding. */
  method HashCacheEntries(entries: seq<CacheFile>, digest: Digest) returns (fingerprint: Option<Fingerprint>)
    ensures fingerprint.Some? <==> Describable(entries)
    ensures fingerprint.Some? ==>
              fingerprint.value == Fingerprint(|entries|, TotalLength(Sorted(entries)), digest(Encode(Sorted(entries))))
  {
    hide Sorted, Record;
    if entries == [] { return None; }
    var sorted := Sorted(entries);
    assert |multiset(sorted)| == |multiset(entries)|;
    var descriptor, total := PREAMBLE, 0;
    for i := 0 to |sorted|
      invariant descriptor + Records(sorted[i..]) == Encode(sorted)
      invariant total + TotalLength(sorted[i..]) == TotalLength(sorted)
      invariant total <= MAX_TOTAL_BYTES
      invariant i > 0 ==> |descriptor| <= MAX_DESCRIPTOR_BYTES
    {
      assert sorted[i..][1..] == sorted[i + 1..];
      assert descriptor + (Record(sorted[i]) + Records(sorted[i + 1..])) == descriptor + Record(sorted[i]) + Records(sorted[i + 1..]);
      total := total + sorted[i].length;
      if total > MAX_TOTAL_BYTES { return None; }
      descriptor := descriptor + Record(sorted[i]);
      if |descriptor| > MAX_DESCRIPTOR_BYTES { return None; }
    }
    assert sorted[|sorted|..] == [] && descriptor + [] == descriptor;
    return Some(Fingerprint(|sorted|, total, digest(descriptor)));
  }

  // ---- from trees to descriptors ----

  /** A file of the tree, by the components that lead to it. */
  ghost predicate Lies(node: Tree, place: Place, content: Bytes) {
    if place == [] then node == File(content)
    else node.Dir? && exists i :: 0 <= i < |node.entries| && LiesVia(node.entries[i], place, content)
  }

  ghost predicate LiesVia(entry: Entry<Bytes>, place: Place, content: Bytes)
    requires place != []
  {
    entry.name == place[0] && Lies(entry.node, place[1..], content)
  }

  /** The record of some file below `node`, which is at `here`. */
  ghost predicate RecordOf(node: Tree, here: Place, place: Place, content: Bytes, digest: Digest, f: CacheFile) {
    Lies(node, place, content) && f == CacheFile(Portable(here + place), |content|, digest(content))
  }

  ghost predicate Recorded(node: Tree, here: Place, digest: Digest, f: CacheFile) {
    exists place, content :: RecordOf(node, here, place, content, digest, f)
  }

  /** What file systems guarantee: in a directory each name occurs once, and no name holds the separator. */
  ghost predicate PlainNames(node: Tree) {
    node.Dir? ==>
      && (forall i, j :: 0 <= i < j < |node.entries| ==> node.entries[i].name != node.entries[j].name)
      && (forall i :: 0 <= i < |node.entries| ==>
            (node.entries[i].name.Some? ==> SLASH !in node.entries[i].name.value) && PlainNames(node.entries[i].node))
  }

  /** The tally holds exactly the records of the files below. */
  lemma {:induction false} TallyRecords(node: Tree, here: Place, count: nat, digest: Digest, f: CacheFile)
    requires node.Dir? && count <= |node.entries|
    ensures f in TallyOf(node, here, count, digest).files <==>
            exists i :: 0 <= i < count && f in EntryTally(node.entries[i], here, digest).files
  {
    hide TallyOf, EntryTally;
    if count == 0 {
      TallyStart(node, here, digest);
    } else {
      TallyRecords(node, here, count - 1, digest, f);
      TallyNext(node, here, count - 1, digest);
    }
  }

  lemma {:induction false} EntryRecords(entry: Entry<Bytes>, here: Place, digest: Digest, f: CacheFile)
    ensures f in EntryTally(entry, here, digest).files <==> Recorded(entry.node, here + [entry.name], digest, f)
    decreases entry, 1
  {
    hide Portable;
    var inner := here + [entry.name];
    match entry.node
    case File(content) =>
      assert inner + [] == inner;
      assert f in EntryTally(entry, here, digest).files ==> RecordOf(entry.node, inner, [], content, digest, f);
      if Recorded(entry.node, inner, digest, f) {
        var place, c :| RecordOf(entry.node, inner, place, c, digest, f);
      }
    case Dir(_) =>
      WholeRecords(entry.node, inner, digest, f);
    case _ =>
  }

  lemma {:induction false} WholeRecords(node: Tree, here: Place, digest: Digest, f: CacheFile)
    requires node.Dir?
    ensures f in Whole(node, here, digest).files <==> Recorded(node, here, digest, f)
    decreases node, 0
  {
    hide TallyOf, EntryTally;
    TallyRecords(node, here, |node.entries|, digest, f);
    if f in Whole(node, here, digest).files {
      var i :| 0 <= i < |node.entries| && f in EntryTally(node.entries[i], here, digest).files;
      var entry := node.entries[i];
      EntryRecords(entry, here, digest, f);
      var place, content :| RecordOf(entry.node, here + [entry.name], place, content, digest, f);
      RecordBelow(node, here, i, place, content, digest, f);
    }
    if Recorded(node, here, digest, f) {
      var place, content :| RecordOf(node, here, place, content, digest, f);
      var i :| 0 <= i < |node.entries| && LiesVia(node.entries[i], place, content);
      assert here + [place[0]] + place[1..] == here + place;
      assert RecordOf(node.entries[i].node, here + [node.entries[i].name], place[1..], content, digest, f);
      EntryRecords(node.entries[i], here, digest, f);
    }
  }

  lemma RecordBelow(node: Tree, here: Place, i: nat, place: Place, content: Bytes, digest: Digest, f: CacheFile)
    requires node.Dir? && i < |node.entries|
    requires RecordOf(node.entries[i].node, here + [node.entries[i].name], place, content, digest, f)
    ensures RecordOf(node, here, [node.entries[i].name] + place, content, digest, f)
  {
    var whole := [node.entries[i].name] + place;
    assert whole[1..] == place;
    assert LiesVia(node.entries[i], whole, content);
    assert here + [node.entries[i].name] + place == here + whole;
  }

  ghost predicate NoSlash(here: Place) {
    forall i :: 0 <= i < |here| && here[i].Some? ==> SLASH !in here[i].value
  }

  lemma {:induction false} PlaceSound(node: Tree, here: Place, depth: nat, place: Place, content: Bytes)
    requires node.Dir? && !Obstructed(node, here, depth) && Lies(node, place, content)
    ensures place != [] && IsPortable(here + place) && |content| <= MAX_FILE_BYTES
    decreases node
  {
    hide IsPortable;
    var i :| 0 <= i < |node.entries| && LiesVia(node.entries[i], place, content);
    var entry := node.entries[i];
    assert !EntryObstructed(entry, here, depth);
    assert Lies(entry.node, place[1..], content);
    assert here + [entry.name] + place[1..] == here + place;
    if entry.node.Dir? {
      PlaceSound(entry.node, here + [entry.name], depth + 1, place[1..], content);
    } else {
      assert place[1..] == [];
      assert here + place == here + [entry.name];
    }
  }

  lemma {:induction false} PlaceNoSlash(node: Tree, place: Place, content: Bytes)
    requires PlainNames(node) && Lies(node, place, content)
    ensures NoSlash(place)
    decreases node
  {
    if place != [] {
      var i :| 0 <= i < |node.entries| && LiesVia(node.entries[i], place, content);
      PlaceNoSlash(node.entries[i].node, place[1..], content);
      assert place == [place[0]] + place[1..];
    }
  }

  lemma {:induction false} LiesUnique(node: Tree, place: Place, a: Bytes, b: Bytes)
    requires PlainNames(node) && Lies(node, place, a) && Lies(node, place, b)
    ensures a == b
    decreases node
  {
    if place != [] {
      var i :| 0 <= i < |node.entries| && LiesVia(node.entries[i], place, a);
      var j :| 0 <= j < |node.entries| && LiesVia(node.entries[j], place, b);
      assert i == j;
      LiesUnique(node.entries[i].node, place[1..], a, b);
    }
  }

  function Values(here: Place): seq<Bytes> {
    seq(|here|, i requires 0 <= i < |here| => if here[i].Some? then here[i].value else [])
  }

  lemma PortableInjective(p: Place, q: Place)
    requires p != [] && q != [] && IsPortable(p) && IsPortable(q) && NoSlash(p) && NoSlash(q)
    requires Portable(p) == Portable(q)
    ensures p == q
  {
    assert Portable(p) == Join(Values(p), SLASH) && Portable(q) == Join(Values(q), SLASH);
    JoinInjective(Values(p), Values(q), SLASH);
    forall i | 0 <= i < |p| ensures p[i] == q[i] {
      assert Values(p)[i] == Values(q)[i];
    }
  }

  lemma NoSlashConcat(here: Place, place: Place)
    requires NoSlash(here) && NoSlash(place)
    ensures NoSlash(here + place)
  {
  }

  /** Files found through different entries of a directory have different paths. */
  lemma EntriesApart(node: Tree, here: Place, depth: nat, i: nat, j: nat, digest: Digest, f: CacheFile)
    requires node.Dir? && PlainNames(node) && !Obstructed(node, here, depth) && NoSlash(here)
    requires i < j < |node.entries|
    ensures !(f in EntryTally(node.entries[i], here, digest).files && f in EntryTally(node.entries[j], here, digest).files)
  {
    hide EntryTally, Obstructed, Portable;
    if f in EntryTally(node.entries[i], here, digest).files && f in EntryTally(node.entries[j], here, digest).files {
      var p := PlaceThrough(node, here, depth, i, digest, f);
      var q := PlaceThrough(node, here, depth, j, digest, f);
      assert (here + p)[|here|] == p[0] && (here + q)[|here|] == q[0];
      PortableInjective(here + p, here + q);
    }
  }

  lemma PlaceThrough(node: Tree, here: Place, depth: nat, i: nat, digest: Digest, f: CacheFile) returns (place: Place)
    requires node.Dir? && PlainNames(node) && !Obstructed(node, here, depth) && NoSlash(here)
    requires i < |node.entries| && f in EntryTally(node.entries[i], here, digest).files
    ensures place != [] && place[0] == node.entries[i].name && f.path == Portable(here + place)
    ensures IsPortable(here + place) && NoSlash(here + place)
  {
    hide EntryTally, Obstructed, Portable;
    EntryRecords(node.entries[i], here, digest, f);
    var rest, content :| RecordOf(node.entries[i].node, here + [node.entries[i].name], rest, content, digest, f);
    place := [node.entries[i].name] + rest;
    RecordBelow(node, here, i, rest, content, digest, f);
    PlaceSound(node, here, depth, place, content);
    PlaceNoSlash(node, place, content);
    NoSlashConcat(here, place);
  }

  lemma {:induction false} EntryOnce(entry: Entry<Bytes>, here: Place, depth: nat, digest: Digest, f: CacheFile)
    requires PlainNames(entry.node) && !EntryObstructed(entry, here, depth) && NoSlash(here + [entry.name])
    ensures EntryTally(entry, here, digest).files[f] <= 1
    decreases entry, 1
  {
    if entry.node.Dir? {
      TallyOnce(entry.node, here + [entry.name], depth + 1, |entry.node.entries|, digest, f);
    }
  }

  lemma {:induction false} TallyOnce(node: Tree, here: Place, depth: nat, count: nat, digest: Digest, f: CacheFile)
    requires node.Dir? && PlainNames(node) && !Obstructed(node, here, depth) && NoSlash(here) && count <= |node.entries|
    ensures TallyOf(node, here, count, digest).files[f] <= 1
    decreases node, 0, count
  {
    hide TallyOf, EntryTally, EntryObstructed;
    if count == 0 {
      TallyStart(node, here, digest);
    } else {
      var entry := node.entries[count - 1];
      TallyOnce(node, here, depth, count - 1, digest, f);
      assert !EntryObstructed(entry, here, depth) && PlainNames(entry.node);
      NoSlashConcat(here, [entry.name]);
      EntryOnce(entry, here, depth, digest, f);
      TallyNext(node, here, count - 1, digest);
      TallyRecords(node, here, count - 1, digest, f);
      if f in TallyOf(node, here, count - 1, digest).files {
        var i :| 0 <= i < count - 1 && f in EntryTally(node.entries[i], here, digest).files;
        EntriesApart(node, here, depth, i, count - 1, digest, f);
      }
    }
  }

  /** An unobstructed tree has one record for each path. */
  lemma WholeDistinct(root: Tree, digest: Digest)
    requires root.Dir? && PlainNames(root) && !Obstructed(root, [], 0)
    ensures DistinctPaths(Whole(root, [], digest).files)
  {
    hide TallyOf, Obstructed, Portable, PlainNames, Lies;
    var files := Whole(root, [], digest).files;
    forall f ensures files[f] <= 1 { TallyOnce(root, [], 0, |root.entries|, digest, f); }
    forall f, g | f in files && g in files && f.path == g.path ensures f == g {
      WholeRecords(root, [], digest, f);
      WholeRecords(root, [], digest, g);
      var p, a :| RecordOf(root, [], p, a, digest, f);
      var q, b :| RecordOf(root, [], q, b, digest, g);
      PlaceSound(root, [], 0, p, a);
      PlaceSound(root, [], 0, q, b);
      PlaceNoSlash(root, p, a);
      PlaceNoSlash(root, q, b);
      assert [] + p == p && [] + q == q;
      PortableInjective(p, q);
      LiesUnique(root, p, a, b);
    }
  }

  /** The descriptor of a walked tree does not depend on the order in which the walk found its files. */
  lemma DescriptorCanonical(root: Tree, digest: Digest, a: seq<CacheFile>, b: seq<CacheFile>)
    requires root.Dir? && PlainNames(root) && !Obstructed(root, [], 0)
    requires multiset(a) == Whole(root, [], digest).files == multiset(b)
    ensures Sorted(a) == Sorted(b)
  {
    WholeDistinct(root, digest);
    SameFilesSameOrder(a, b);
  }

  lemma SameFilesSameOrder(a: seq<CacheFile>, b: seq<CacheFile>)
    requires DistinctPaths(multiset(a)) && DistinctPaths(multiset(b))
    ensures Sorted(a) == Sorted(b) <==> forall f :: f in multiset(a) <==> f in multiset(b)
  {
    hide Sorted;
    SortedAscending(a);
    SortedAscending(b);
    forall f ensures (f in Sorted(a) <==> f in multiset(a)) && (f in Sorted(b) <==> f in multiset(b)) {
      assert f in Sorted(a) <==> f in multiset(Sorted(a));
      assert f in Sorted(b) <==> f in multiset(Sorted(b));
    }
    if forall f :: f in multiset(a) <==> f in multiset(b) { AscendingUnique(Sorted(a), Sorted(b)); }
  }

  /** Two walked trees have the same descriptor exactly when they hold the same paths, lengths and content hashes. */
  lemma DescriptorExact(a: Tree, b: Tree, digest: Digest, x: seq<CacheFile>, y: seq<CacheFile>)
    requires a.Dir? && PlainNames(a) && !Obstructed(a, [], 0) && multiset(x) == Whole(a, [], digest).files && Describable(x)
    requires b.Dir? && PlainNames(b) && !Obstructed(b, [], 0) && multiset(y) == Whole(b, [], digest).files && Describable(y)
    ensures Encode(Sorted(x)) == Encode(Sorted(y)) <==>
            forall f :: Recorded(a, [], digest, f) <==> Recorded(b, [], digest, f)
  {
    hide Obstructed, Whole, Lies, Sorted, Encode, PlainNames;
    WholeDistinct(a, digest);
    WholeDistinct(b, digest);
    SameFilesSameOrder(x, y);
    forall f ensures (f in multiset(x) <==> Recorded(a, [], digest, f)) && (f in multiset(y) <==> Recorded(b, [], digest, f)) {
      WholeRecords(a, [], digest, f);
      WholeRecords(b, [], digest, f);
    }
    DescribableFits(a, digest, x);
    DescribableFits(b, digest, y);
    EncodeDetermined(Sorted(x), Sorted(y));
  }

  lemma DescribableFits(root: Tree, digest: Digest, x: seq<CacheFile>)
    requires root.Dir? && !Obstructed(root, [], 0) && multiset(x) == Whole(root, [], digest).files && Describable(x)
    ensures forall f :: f in Sorted(x) ==> FitsU64(f)
  {
    hide Obstructed, Whole, Lies, Sorted;
    forall f | f in Sorted(x) ensures FitsU64(f) {
      assert f in multiset(Sorted(x));
      WholeRecords(root, [], digest, f);
      var place, content :| RecordOf(root, [], place, content, digest, f);
      PlaceSound(root, [], 0, place, content);
      var i :| 0 <= i < |Sorted(x)| && Sorted(x)[i] == f;
      RecordLength(Sorted(x), i);
    }
  }

  lemma {:induction false} RecordLength(files: seq<CacheFile>, i: nat)
    requires i < |files|
    ensures |files[i].path| <= |Records(files)|
  {
    if i > 0 { RecordLength(files[1..], i - 1); }
  }

  /** The fingerprint that the records of a tree determine, whatever the order they were found in. */
  ghost predicate FingerprintOf(root: Tree, digest: Digest, fingerprint: Fingerprint)
    requires root.Dir?
  {
    exists entries :: FingerprintBy(root, digest, entries, fingerprint)
  }

  ghost predicate FingerprintBy(root: Tree, digest: Digest, entries: seq<CacheFile>, fingerprint: Fingerprint)
    requires root.Dir?
  {
    && multiset(entries) == Whole(root, [], digest).files && Describable(entries)
    && fingerprint == Fingerprint(|entries|, TotalLength(Sorted(entries)), digest(Encode(Sorted(entries))))
  }

  ghost predicate Undescribable(root: Tree, digest: Digest)
    requires root.Dir?
  {
    exists entries :: multiset(entries) == Whole(root, [], digest).files && !Describable(entries)
  }

  /** `hash_tectonic_cache_tree`. */
  method HashCacheTree(root: Tree, digest: Digest) returns (fingerprint: Option<Fingerprint>)
    requires root.Dir?
    ensures PlainNames(root) ==> fingerprint == FingerprintFor(root, digest)
    ensures fingerprint.Some? ==> !Obstructed(root, [], 0) && FingerprintOf(root, digest, fingerprint.value)
    ensures fingerprint.None? ==>
              || Obstructed(root, [], 0)
              || Whole(root, [], digest).entries > MAX_ENTRIES
              || Whole(root, [], digest).bytes > MAX_TOTAL_BYTES
              || Undescribable(root, digest)
  {
    hide Obstructed, Whole, Sorted, Encode, Describable, PlainNames;
    var entries, ok := CollectCacheFiles(root, digest);
    if !ok { return None; }
    fingerprint := HashCacheEntries(entries, digest);
    if fingerprint.Some? { assert FingerprintBy(root, digest, entries, fingerprint.value); }
    if PlainNames(root) {
      WholeDistinct(root, digest);
      OneFingerprint(entries, Listed(Whole(root, [], digest).files), digest);
    }
  }

  ghost predicate Lists(entries: seq<CacheFile>, files: multiset<CacheFile>) { multiset(entries) == files }

  lemma {:induction false} SomeListing(files: multiset<CacheFile>) returns (entries: seq<CacheFile>)
    ensures Lists(entries, files)
    decreases |files|
  {
    entries := [];
    if files != multiset{} {
      var f :| f in files;
      var rest := SomeListing(files - multiset{f});
      entries := rest + [f];
    }
  }

  /** The records in some order. */
  ghost function Listed(files: multiset<CacheFile>): (entries: seq<CacheFile>)
    ensures multiset(entries) == files
  {
    ListingExists(files);
    var entries: seq<CacheFile> :| Lists(entries, files);
    entries
  }

  lemma ListingExists(files: multiset<CacheFile>)
    ensures exists entries :: Lists(entries, files)
  {
    var entries := SomeListing(files);
  }

  ghost function FingerprintOfEntries(entries: seq<CacheFile>, digest: Digest): Option<Fingerprint> {
    if Describable(entries) then Some(Fingerprint(|entries|, TotalLength(Sorted(entries)), digest(Encode(Sorted(entries))))) else None
  }

  lemma OneFingerprint(a: seq<CacheFile>, b: seq<CacheFile>, digest: Digest)
    requires multiset(a) == multiset(b) && DistinctPaths(multiset(a))
    ensures FingerprintOfEntries(a, digest) == FingerprintOfEntries(b, digest)
  {
    SameFilesSameOrder(a, b);
    assert |multiset(a)| == |a| && |multiset(b)| == |b|;
    hide Sorted, Encode, TotalLength;
  }

  /** What the hash of a tree is, or that it is refused. */
  ghost function FingerprintFor(root: Tree, digest: Digest): Option<Fingerprint>
    requires root.Dir?
  {
    var whole := Whole(root, [], digest);
    if Obstructed(root, [], 0) || whole.entries > MAX_ENTRIES || whole.bytes > MAX_TOTAL_BYTES then None
    else FingerprintOfEntries(Listed(whole.files), digest)
  }

  // ---- the order of listings ----

  /** The same tree, with every directory listed in any order. */
  ghost predicate Reordered(a: Tree, b: Tree)
    decreases a, 1
  {
    if a.Dir? then b.Dir? && exists middle :: Matched(a, middle) && multiset(middle) == multiset(b.entries) else a == b
  }

  /** Entry by entry the same names, with reordered trees behind them. */
  ghost predicate Matched(a: Tree, middle: seq<Entry<Bytes>>)
    requires a.Dir?
    decreases a, 0
  {
    && |middle| == |a.entries|
    && forall i :: 0 <= i < |middle| ==> middle[i].name == a.entries[i].name && Reordered(a.entries[i].node, middle[i].node)
  }

  ghost function Sum(entries: seq<Entry<Bytes>>, here: Place, digest: Digest): Tally {
    if entries == [] then NOTHING
    else Sum(entries[..|entries| - 1], here, digest).Plus(EntryTally(entries[|entries| - 1], here, digest))
  }

  lemma {:induction false} TallyIsSum(node: Tree, here: Place, count: nat, digest: Digest)
    requires node.Dir? && count <= |node.entries|
    ensures TallyOf(node, here, count, digest) == Sum(node.entries[..count], here, digest)
  {
    hide EntryTally;
    if count > 0 {
      TallyIsSum(node, here, count - 1, digest);
      assert node.entries[..count][..count - 1] == node.entries[..count - 1];
    }
  }

  lemma PlusSwaps(a: Tally, b: Tally, c: Tally)
    ensures a.Plus(b).Plus(c) == a.Plus(c).Plus(b)
  {
    assert a.files + b.files + c.files == a.files + c.files + b.files;
  }

  lemma {:induction false} SumRemove(entries: seq<Entry<Bytes>>, j: nat, here: Place, digest: Digest)
    requires j < |entries|
    ensures Sum(entries, here, digest) == Sum(entries[..j] + entries[j + 1..], here, digest).Plus(EntryTally(entries[j], here, digest))
  {
    hide EntryTally, Tally.Plus;
    var n := |entries|;
    var rest := entries[..j] + entries[j + 1..];
    if j == n - 1 {
      assert rest == entries[..n - 1];
    } else {
      var front := entries[..n - 1];
      SumRemove(front, j, here, digest);
      assert front[..j] + front[j + 1..] == rest[..|rest| - 1];
      assert rest[|rest| - 1] == entries[n - 1];
      PlusSwaps(Sum(front[..j] + front[j + 1..], here, digest), EntryTally(entries[j], here, digest),
                EntryTally(entries[n - 1], here, digest));
    }
  }

  lemma SumUnfold(entries: seq<Entry<Bytes>>, here: Place, digest: Digest)
    ensures Sum(entries, here, digest)
            == if entries == [] then NOTHING
               else Sum(entries[..|entries| - 1], here, digest).Plus(EntryTally(entries[|entries| - 1], here, digest))
  {
  }

  /** The last element of one list, found in another with the same members, and what is left of both. */
  lemma LastElsewhere<T>(a: seq<T>, b: seq<T>) returns (j: nat)
    requires multiset(a) == multiset(b) && a != []
    ensures j < |b| && b[j] == a[|a| - 1]
    ensures multiset(a[..|a| - 1]) == multiset(b[..j] + b[j + 1..])
  {
    var last := a[|a| - 1];
    assert a == a[..|a| - 1] + [last];
    assert last in multiset(b);
    j :| 0 <= j < |b| && b[j] == last;
    assert b == b[..j] + [last] + b[j + 1..];
    assert multiset(b) == multiset(b[..j] + b[j + 1..]) + multiset{last};
    assert multiset(a) == multiset(a[..|a| - 1]) + multiset{last};
    CancelOne(multiset(a[..|a| - 1]), multiset(b[..j] + b[j + 1..]), last);
  }

  lemma CancelOne<T>(x: multiset<T>, y: multiset<T>, e: T)
    requires x + multiset{e} == y + multiset{e}
    ensures x == y
  {
    assert x == (x + multiset{e}) - multiset{e} && y == (y + multiset{e}) - multiset{e};
  }

  lemma {:induction false} SumOfMultiset(a: seq<Entry<Bytes>>, b: seq<Entry<Bytes>>, here: Place, digest: Digest)
    requires multiset(a) == multiset(b)
    ensures Sum(a, here, digest) == Sum(b, here, digest)
    decreases |a|
  {
    hide EntryTally, Sum, Tally.Plus;
    SumUnfold(a, here, digest);
    if a == [] {
      assert |multiset(b)| == |b|;
    } else {
      var j := LastElsewhere(a, b);
      SumOfMultiset(a[..|a| - 1], b[..j] + b[j + 1..], here, digest);
      SumRemove(b, j, here, digest);
    }
  }

  lemma {:induction false} SumOfMatched(a: seq<Entry<Bytes>>, b: seq<Entry<Bytes>>, here: Place, digest: Digest)
    requires |a| == |b| && forall i :: 0 <= i < |a| ==> EntryTally(a[i], here, digest) == EntryTally(b[i], here, digest)
    ensures Sum(a, here, digest) == Sum(b, here, digest)
  {
    hide EntryTally;
    if a != [] { SumOfMatched(a[..|a| - 1], b[..|b| - 1], here, digest); }
  }

  lemma {:induction false} ReorderedWhole(a: Tree, b: Tree, here: Place, digest: Digest)
    requires a.Dir? && Reordered(a, b)
    ensures Whole(a, here, digest) == Whole(b, here, digest)
    decreases a
  {
    var middle: seq<Entry<Bytes>> :| Matched(a, middle) && multiset(middle) == multiset(b.entries);
    forall i | 0 <= i < |middle| ensures EntryTally(a.entries[i], here, digest) == EntryTally(middle[i], here, digest) {
      var x, y := a.entries[i], middle[i];
      assert x.name == y.name && Reordered(x.node, y.node);
      if x.node.Dir? { ReorderedWhole(x.node, y.node, here + [x.name], digest); } else { assert x == y; }
    }
    hide EntryTally;
    SumOfMatched(a.entries, middle, here, digest);
    SumOfMultiset(middle, b.entries, here, digest);
    TallyIsSum(a, here, |a.entries|, digest);
    TallyIsSum(b, here, |b.entries|, digest);
    assert a.entries[..|a.entries|] == a.entries && b.entries[..|b.entries|] == b.entries;
  }

  ghost predicate SomeEntry(entries: seq<Entry<Bytes>>, here: Place, depth: nat) {
    exists i :: 0 <= i < |entries| && EntryObstructed(entries[i], here, depth)
  }

  lemma SomeEntryMoves(a: seq<Entry<Bytes>>, b: seq<Entry<Bytes>>, here: Place, depth: nat)
    requires multiset(a) == multiset(b) && SomeEntry(a, here, depth)
    ensures SomeEntry(b, here, depth)
  {
    hide EntryObstructed;
    var i :| 0 <= i < |a| && EntryObstructed(a[i], here, depth);
    assert a[i] in multiset(b);
    var j :| 0 <= j < |b| && b[j] == a[i];
  }

  lemma {:induction false} ReorderedObstructed(a: Tree, b: Tree, here: Place, depth: nat)
    requires a.Dir? && Reordered(a, b)
    ensures Obstructed(a, here, depth) <==> Obstructed(b, here, depth)
    decreases a, 1
  {
    var middle: seq<Entry<Bytes>> :| Matched(a, middle) && multiset(middle) == multiset(b.entries);
    MatchedObstructed(a, middle, here, depth);
    if SomeEntry(middle, here, depth) { SomeEntryMoves(middle, b.entries, here, depth); }
    if SomeEntry(b.entries, here, depth) { SomeEntryMoves(b.entries, middle, here, depth); }
    hide EntryObstructed, Matched, Reordered;
  }

  lemma {:induction false} MatchedObstructed(a: Tree, middle: seq<Entry<Bytes>>, here: Place, depth: nat)
    requires a.Dir? && Matched(a, middle)
    ensures SomeEntry(a.entries, here, depth) <==> SomeEntry(middle, here, depth)
    decreases a, 0
  {
    forall i | 0 <= i < |middle| ensures EntryObstructed(a.entries[i], here, depth) <==> EntryObstructed(middle[i], here, depth) {
      var x, y := a.entries[i], middle[i];
      assert x.name == y.name && Reordered(x.node, y.node);
      if x.node.Dir? { ReorderedObstructed(x.node, y.node, here + [x.name], depth + 1); } else { assert x == y; }
    }
  }

  /** Neither success nor the fingerprint depends on the order in which directories list their entries. */
  lemma ListingOrderIrrelevant(a: Tree, b: Tree, digest: Digest)
    requires a.Dir? && Reordered(a, b)
    ensures FingerprintFor(a, digest) == FingerprintFor(b, digest)
  {
    ReorderedWhole(a, b, [], digest);
    ReorderedObstructed(a, b, [], 0);
    hide Whole, Obstructed, FingerprintOfEntries;
  }

  /** The descriptor of a tree, from its records in any order. */
  ghost predicate DescriptorOf(root: Tree, digest: Digest, descriptor: Bytes)
    requires root.Dir?
  {
    exists entries :: multiset(entries) == Whole(root, [], digest).files && descriptor == Encode(Sorted(entries))
  }

  /** The digest does not collide on the descriptors of the two trees. */
  ghost predicate DescriptorsApart(a: Tree, b: Tree, digest: Digest)
    requires a.Dir? && b.Dir?
  {
    forall x, y :: DescriptorOf(a, digest, x) && DescriptorOf(b, digest, y) && digest(x) == digest(y) ==> x == y
  }

  /**
   * Trees with the same records have equal fingerprints, and only they do, unless the digest collides on their two
   * descriptors.
   */
  method CompareTrees(a: Tree, b: Tree, digest: Digest) returns (same: Option<bool>)
    requires a.Dir? && b.Dir? && PlainNames(a) && PlainNames(b)
    ensures same.Some? && (forall f :: Recorded(a, [], digest, f) <==> Recorded(b, [], digest, f)) ==> same.value
    ensures same.Some? && same.value && DescriptorsApart(a, b, digest) ==>
              forall f :: Recorded(a, [], digest, f) <==> Recorded(b, [], digest, f)
  {
    hide Obstructed, Whole, Sorted, Encode, Describable, Recorded, PlainNames, TotalLength;
    var p := HashCacheTree(a, digest);
    var q := HashCacheTree(b, digest);
    if p.None? || q.None? { return None; }
    ghost var ps :| FingerprintBy(a, digest, ps, p.value);
    ghost var qs :| FingerprintBy(b, digest, qs, q.value);
    DescriptorExact(a, b, digest, ps, qs);
    assert DescriptorOf(a, digest, Encode(Sorted(ps))) && DescriptorOf(b, digest, Encode(Sorted(qs)));
    if Encode(Sorted(ps)) == Encode(Sorted(qs)) { SameDescriptorSameFiles(a, b, digest, ps, qs); }
    return Some(p == q);
  }

  lemma SameDescriptorSameFiles(a: Tree, b: Tree, digest: Digest, x: seq<CacheFile>, y: seq<CacheFile>)
    requires a.Dir? && !Obstructed(a, [], 0) && multiset(x) == Whole(a, [], digest).files && Describable(x)
    requires b.Dir? && !Obstructed(b, [], 0) && multiset(y) == Whole(b, [], digest).files && Describable(y)
    requires Encode(Sorted(x)) == Encode(Sorted(y))
    ensures Sorted(x) == Sorted(y) && |x| == |y|
  {
    hide Obstructed, Whole, Sorted, Encode;
    DescribableFits(a, digest, x);
    DescribableFits(b, digest, y);
    EncodeDetermined(Sorted(x), Sorted(y));
    assert |multiset(Sorted(x))| == |multiset(x)| && |multiset(Sorted(y))| == |multiset(y)|;
  }
}
