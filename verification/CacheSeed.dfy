/**
 * Seeding a controlled compiler cache from the ordinary one. Every operation on the file system is a question that the
 * environment answers, so a run is a function of the two caches and of the answers, and any operation may fail.
 */
module CacheSeed {
  import opened Bytes
  import opened Wrappers
  import opened FileTree
  import CacheKey

  const MAX_FILES := 100_000
  const MAX_TOTAL_BYTES := 0x4000_0000  // 1 GiB
  const MAX_FILE_BYTES := 0x1000_0000   // 256 MiB
  const MAX_INDEX_BYTES := 0x400_0000   // 64 MiB
  const MAX_LOCATORS := 1024
  const DASH: byte := 45
  const NEWLINE: byte := 10

  type Item = Node<Bytes>

  /** The ordinary cache: a missing directory or file is `None`. */
  datatype Ordinary = Ordinary(hashes: seq<Entry<Bytes>>, indexes: map<Bytes, Item>, bundles: map<Bytes, Item>, formats: Option<Item>)

  /** What stands at the ordinary cache's place; `same` when it is the controlled cache itself. */
  datatype Place = Missing | NotDirectory | Cache(ordinary: Ordinary, same: bool)

  /** Where a file lies in the controlled cache. */
  datatype Spot =
    | Marker(name: Bytes)
    | Index(bundle: Bytes)
    | BundleFile(bundle: Bytes, name: Bytes)
    | Format(name: Bytes)
    | Staging(target: Spot, tag: nat)

  type Files = map<Spot, Bytes>

  datatype Directory = Bundle | Formats

  /** The questions put to the file system. */
  datatype Operation =
    | InspectCache | ReadHashes | ReadMarker | InspectIndex
    | List(directory: Directory) | ReadEntry(directory: Directory, index: nat) | InspectEntry(directory: Directory, index: nat)
    | InspectSource(spot: Spot) | InspectTarget(spot: Spot) | MakeParent(spot: Spot)
    | Link(spot: Spot) | LinkFindsTarget(spot: Spot)
    | OpenSource(spot: Spot) | CreateStaging(spot: Spot) | Copy(spot: Spot) | Rename(spot: Spot)
    | RemoveStaging(spot: Spot) | InspectTargetAgain(spot: Spot)

  /** What it answers, how much of a failing copy it writes, and the number drawn for staging names. */
  datatype Env = Env(answers: Operation -> bool, written: Spot -> nat, tag: nat)

  // ---- choosing the bundle ----

  predicate IsLowerHex(b: byte) { 48 <= b <= 57 || 97 <= b <= 102 }

  predicate AllLowerHex(id: Bytes) { forall i :: 0 <= i < |id| ==> IsLowerHex(id[i]) }

  /** The content identity in a marker: 64 lower-case hexadecimal digits, a newline allowed after them. */
  function Identity(content: Bytes): Option<Bytes> {
    var id := if content != [] && content[|content| - 1] == NEWLINE then content[..|content| - 1] else content;
    if |content| <= 65 && |id| == 64 && AllLowerHex(id) then Some(id) else None
  }

  /** An identity is 64 lower-case hexadecimal digits, alone in its marker but for one newline behind them. */
  lemma IdentityExact(content: Bytes, id: Bytes)
    ensures Identity(content) == Some(id) <==>
            && |id| == 64 && (content == id || content == id + [10])
            && forall i :: 0 <= i < |id| ==> 48 <= id[i] <= 57 || 97 <= id[i] <= 102
  {
    var bare := if content != [] && content[|content| - 1] == NEWLINE then content[..|content| - 1] else content;
    assert content == bare || content == bare + [10];
    assert content == id + [10] ==> content[|content| - 1] == 10 && bare == id;
    assert content == id && |id| == 64 ==> content[63] == id[63];
  }

  predicate Locates(entry: Entry<Bytes>, locator: Bytes) {
    entry.name.Some? && CacheKey.SafeComponent(entry.name.value) && CacheKey.Decode(entry.name.value) == Some(locator)
  }

  /** The marker that names the bundle of the locator. */
  datatype Choice = Choice(name: Bytes, content: Bytes, bundle: Bytes)

  ghost predicate Chosen(ordinary: Ordinary, locator: Bytes, choice: Choice) {
    exists i :: 0 <= i < |ordinary.hashes|
      && ordinary.hashes[i] == Entry(Some(choice.name), File(choice.content))
      && Locates(ordinary.hashes[i], locator)
      && Identity(choice.content) == Some(choice.bundle)
      && forall j :: 0 <= j < |ordinary.hashes| && j != i ==> !Locates(ordinary.hashes[j], locator)
  }

  /** What `ordinary_bundle_marker` finds: the one marker, among no more records than it is willing to read. */
  ghost function BundleChoice(ordinary: Ordinary, locator: Bytes): (choice: Option<Choice>)
    ensures choice.Some? <==> |ordinary.hashes| <= MAX_LOCATORS && exists c :: Chosen(ordinary, locator, c)
    ensures choice.Some? ==> Chosen(ordinary, locator, choice.value)
  {
    if |ordinary.hashes| <= MAX_LOCATORS && exists c :: Chosen(ordinary, locator, c)
    then var c :| Chosen(ordinary, locator, c); Some(c)
    else None
  }

  /** `ordinary_bundle_marker`: exactly one safely named record decodes to the locator. */
  method OrdinaryBundleMarker(ordinary: Ordinary, locator: Bytes) returns (choice: Option<Choice>)
    ensures choice == BundleChoice(ordinary, locator)
  {
    hide CacheKey.Decode, CacheKey.SafeComponent;
    var marker: Option<nat> := None;
    for i := 0 to |ordinary.hashes|
      invariant i <= MAX_LOCATORS
      invariant marker.Some? ==> marker.value < i && Locates(ordinary.hashes[marker.value], locator)
      invariant forall j :: 0 <= j < i && marker != Some(j) ==> !Locates(ordinary.hashes[j], locator)
    {
      if i + 1 > MAX_LOCATORS { return None; }
      if ordinary.hashes[i].name.None? { continue; }
      var name := ordinary.hashes[i].name.value;
      if !CacheKey.SafeComponent(name) { continue; }
      var key := CacheKey.DecodeTectonicCacheKey(name);
      if key == Some(locator) {
        if marker.Some? {
          assert Locates(ordinary.hashes[i], locator) && Locates(ordinary.hashes[marker.value], locator);
          assert forall c :: !Chosen(ordinary, locator, c);
          return None;
        }
        marker := Some(i);
      }
    }
    if marker.None? { return None; }
    var entry := ordinary.hashes[marker.value];
    if !entry.node.File? { return None; }
    var bundle := Identity(entry.node.content);
    if bundle.None? { return None; }
    choice := Some(Choice(entry.name.value, entry.node.content, bundle.value));
    assert Chosen(ordinary, locator, choice.value);
    ChosenOnce(ordinary, locator, choice.value, BundleChoice(ordinary, locator).value);
  }

  /** A marker is chosen exactly when a record with its name and content locates the bundle, and no two records do. */
  lemma ChosenExact(ordinary: Ordinary, locator: Bytes, choice: Choice)
    ensures Chosen(ordinary, locator, choice) <==>
            && Entry(Some(choice.name), File(choice.content)) in ordinary.hashes
            && CacheKey.SafeComponent(choice.name) && CacheKey.Decode(choice.name) == Some(locator)
            && Identity(choice.content) == Some(choice.bundle)
            && forall i, j :: 0 <= i < j < |ordinary.hashes| ==> !(Locates(ordinary.hashes[i], locator) && Locates(ordinary.hashes[j], locator))
  {
    hide CacheKey.Decode, CacheKey.SafeComponent, Identity;
  }

  lemma ChosenOnce(ordinary: Ordinary, locator: Bytes, left: Choice, right: Choice)
    requires Chosen(ordinary, locator, left) && Chosen(ordinary, locator, right)
    ensures left == right
  {
    hide CacheKey.Decode, CacheKey.SafeComponent;
    var i :| 0 <= i < |ordinary.hashes| && ordinary.hashes[i] == Entry(Some(left.name), File(left.content))
             && Locates(ordinary.hashes[i], locator) && Identity(left.content) == Some(left.bundle);
    assert ordinary.hashes[i] == Entry(Some(right.name), File(right.content));
  }

  // ---- what seeding may write ----

  predicate Listed(directory: Option<Item>, entry: Entry<Bytes>) {
    directory.Some? && directory.value.Dir? && entry in directory.value.entries
  }

  /** A safely named regular file of a directory. */
  ghost predicate Holds(directory: Option<Item>, name: Bytes, content: Bytes) {
    CacheKey.SafeComponent(name) && Listed(directory, Entry(Some(name), File(content)))
  }

  function Lookup(items: map<Bytes, Item>, key: Bytes): Option<Item> {
    if key in items then Some(items[key]) else None
  }

  /** The file that the ordinary cache offers for a spot, for the chosen bundle. */
  ghost predicate Offers(ordinary: Ordinary, choice: Choice, spot: Spot, content: Bytes) {
    match spot
    case Marker(name) => name == choice.name && content == choice.content
    case Index(bundle) => bundle == choice.bundle && Lookup(ordinary.indexes, bundle) == Some(File(content))
    case BundleFile(bundle, name) => bundle == choice.bundle && Holds(Lookup(ordinary.bundles, bundle), name, content)
    case Format(name) => choice.bundle + [DASH] <= name && Holds(ordinary.formats, name, content)
    case Staging(_, _) => false
  }

  /** The regular file or whatever else stands at the index's place, if it can be seen. */
  function IndexSeen(env: Env, ordinary: Ordinary, choice: Choice): Option<Item> {
    if env.answers(InspectIndex) then Lookup(ordinary.indexes, choice.bundle) else None
  }

  // ---- the run as a function ----

  /** Every state of the controlled cache so far, and what has been charged. */
  datatype Trail = Trail(states: seq<Files>, files: nat, bytes: nat)
  {
    predicate Begun() { states != [] }

    function Now(): Files
      requires Begun()
    {
      states[|states| - 1]
    }

    function Then(next: Files): Trail { this.(states := states + [next]) }
  }

  /** `CacheSeedBudget::charge`. */
  function Charged(t: Trail, bytes: nat): (Trail, bool) {
    if t.files + 1 > MAX_FILES then (t.(files := t.files + 1), false)
    else (t.(files := t.files + 1, bytes := t.bytes + bytes), t.bytes + bytes <= MAX_TOTAL_BYTES)
  }

  function Least(a: nat, b: nat): nat { if a <= b then a else b }

  /** Best-effort removal of a staged copy. */
  function Unstaged(env: Env, t: Trail, spot: Spot): (after: Trail)
    requires t.Begun()
    ensures after.Begun() && t.states <= after.states
  {
    if env.answers(RemoveStaging(spot)) then t.Then(t.Now() - {Staging(spot, env.tag)}) else t
  }

  /** A staged copy: empty, then with what was written. */
  function Staged(env: Env, t: Trail, spot: Spot, content: Bytes): (after: Trail)
    requires t.Begun()
    ensures after.Begun() && t.states <= after.states
  {
    var name := Staging(spot, env.tag);
    var length := if env.answers(Copy(spot)) then |content| else Least(env.written(spot), |content|);
    t.Then(t.Now()[name := []]).Then(t.Now()[name := content[..length]])
  }

  /** The second half of `seed_one_cache_file`: a staged copy, renamed over whatever is at the target. */
  function Copied(env: Env, t: Trail, spot: Spot, content: Bytes): (r: (Trail, Option<nat>))
    requires t.Begun()
    ensures r.0.Begun() && t.states <= r.0.states
  {
    if !env.answers(CreateStaging(spot)) then (t, None)
    else
      var name := Staging(spot, env.tag);
      var staged := Staged(env, t, spot, content);
      if !env.answers(Copy(spot)) then (Unstaged(env, staged, spot), None)
      else if env.answers(Rename(spot)) then
        (staged.Then((staged.Now() - {name})[spot := content]), Some(|content|))
      else
        var left := Unstaged(env, staged, spot);
        (left, if spot in left.Now() && env.answers(InspectTargetAgain(spot)) then Some(0) else None)
  }

  /** `seed_one_cache_file`. */
  function SeededOne(env: Env, t: Trail, source: Item, spot: Spot, maxBytes: nat): (r: (Trail, Option<nat>))
    requires t.Begun()
    ensures r.0.Begun() && t.states <= r.0.states
  {
    if !env.answers(InspectSource(spot)) || !source.File? || |source.content| > maxBytes then (t, None)
    else if spot in t.Now() && env.answers(InspectTarget(spot)) then (t, Some(0))
    else if !env.answers(MakeParent(spot)) then (t, None)
    else if spot !in t.Now() && env.answers(Operation.Link(spot)) then
      (t.Then(t.Now()[spot := source.content]), Some(|source.content|))
    else if spot in t.Now() && env.answers(LinkFindsTarget(spot)) then (t, Some(0))
    else if !env.answers(OpenSource(spot)) then (t, None)
    else Copied(env, t, spot, source.content)
  }

  function SeededCharged(env: Env, t: Trail, source: Item, spot: Spot, maxBytes: nat): (r: (Trail, bool))
    requires t.Begun()
    ensures r.0.Begun() && t.states <= r.0.states
  {
    var (after, seeded) := SeededOne(env, t, source, spot, maxBytes);
    if seeded.None? then (after, false) else Charged(after, seeded.value)
  }

  function Target(directory: Directory, bundle: Bytes, name: Bytes): Spot {
    if directory.Bundle? then BundleFile(bundle, name) else Format(name)
  }

  function PrefixOf(directory: Directory, bundle: Bytes): Bytes {
    if directory.Bundle? then [] else bundle + [DASH]
  }

  /** An entry whose name is Unicode, safe and has the prefix. */
  predicate Named(entry: Entry<Bytes>, prefix: Bytes) {
    entry.name.Some? && CacheKey.SafeComponent(entry.name.value) && prefix <= entry.name.value
  }

  /** The entry at `i` of a listing; other names, and what is not a regular file, are passed over. */
  function SeededEntry(env: Env, t: Trail, directory: Directory, bundle: Bytes, entries: seq<Entry<Bytes>>, i: nat): (r: (Trail, bool))
    requires t.Begun() && i < |entries|
    ensures r.0.Begun() && t.states <= r.0.states
  {
    var entry := entries[i];
    if !env.answers(ReadEntry(directory, i)) then (t, false)
    else if !Named(entry, PrefixOf(directory, bundle)) then (t, true)
    else if !env.answers(InspectEntry(directory, i)) then (t, false)
    else if !entry.node.File? then (t, true)
    else SeededCharged(env, t, entry.node, Target(directory, bundle, entry.name.value), MAX_FILE_BYTES)
  }

  /** The first `n` entries of a listing. */
  function SeededEntries(env: Env, t: Trail, directory: Directory, bundle: Bytes, entries: seq<Entry<Bytes>>, n: nat): (r: (Trail, bool))
    requires t.Begun() && n <= |entries|
    ensures r.0.Begun() && t.states <= r.0.states
  {
    if n == 0 then (t, true)
    else
      var (before, ok) := SeededEntries(env, t, directory, bundle, entries, n - 1);
      if ok then SeededEntry(env, before, directory, bundle, entries, n - 1) else (before, false)
  }

  /** `seed_flat_bundle_directory` and `seed_bundle_formats`. */
  function SeededDirectory(env: Env, t: Trail, directory: Directory, bundle: Bytes, item: Option<Item>): (r: (Trail, bool))
    requires t.Begun()
    ensures r.0.Begun() && t.states <= r.0.states
  {
    if !env.answers(List(directory)) then (t, false)
    else if item.None? then (t, true)
    else if !item.value.Dir? then (t, false)
    else SeededEntries(env, t, directory, bundle, item.value.entries, |item.value.entries|)
  }

  /** The index, if it can be seen. */
  function SeededIndex(env: Env, t: Trail, ordinary: Ordinary, choice: Choice): (r: (Trail, bool))
    requires t.Begun()
    ensures r.0.Begun() && t.states <= r.0.states
  {
    var index := IndexSeen(env, ordinary, choice);
    if index.None? then (t, true) else SeededCharged(env, t, index.value, Index(choice.bundle), MAX_INDEX_BYTES)
  }

  /** The index and both directories. */
  function SeededContents(env: Env, t: Trail, ordinary: Ordinary, choice: Choice): (r: (Trail, bool))
    requires t.Begun()
    ensures r.0.Begun() && t.states <= r.0.states
  {
    var (indexed, ok) := SeededIndex(env, t, ordinary, choice);
    if !ok then (indexed, false)
    else
      var (bundled, ok) := SeededDirectory(env, indexed, Bundle, choice.bundle, Lookup(ordinary.bundles, choice.bundle));
      if !ok then (bundled, false)
      else SeededDirectory(env, bundled, Formats, choice.bundle, ordinary.formats)
  }

  /** Everything, the marker last. */
  function Seeded(env: Env, t: Trail, ordinary: Ordinary, choice: Choice): (r: (Trail, bool))
    requires t.Begun()
    ensures r.0.Begun() && t.states <= r.0.states
  {
    var (ready, ok) := SeededContents(env, t, ordinary, choice);
    if !ok then (ready, false) else SeededCharged(env, ready, File(choice.content), Marker(choice.name), 65)
  }

  function Start(files: Files): Trail { Trail([files], 0, 0) }

  /** `seed_probe_tectonic_cache_from`. */
  ghost function Outcome(env: Env, place: Place, locator: Bytes, files: Files): (r: (Trail, bool))
    ensures r.0.Begun()
  {
    var start := Start(files);
    if !env.answers(InspectCache) then (start, false)
    else match place
      case Missing => (start, true)
      case NotDirectory => (start, false)
      case Cache(ordinary, same) =>
        if same then (start, true)
        else
          var choice := BundleChoice(ordinary, locator);
          if !env.answers(ReadHashes) || choice.None? || !env.answers(ReadMarker) then (start, false)
          else Seeded(env, start, ordinary, choice.value)
  }

  // ---- the run as it is carried out ----

  /** The controlled cache while it is being seeded, with every state it has been in. */
  class Probe {
    const env: Env
    const ordinary: Ordinary
    const choice: Choice
    var files: Files
    ghost var history: seq<Files>
    var chargedFiles: nat
    var chargedBytes: nat

    ghost predicate Valid()
      reads this
    {
      history != [] && history[|history| - 1] == files
    }

    ghost function Path(): Trail
      reads this
    {
      Trail(history, chargedFiles, chargedBytes)
    }

    constructor (env: Env, ordinary: Ordinary, choice: Choice, files: Files)
      ensures Valid() && this.env == env && this.ordinary == ordinary && this.choice == choice && Path() == Start(files)
    {
      this.env, this.ordinary, this.choice, this.files := env, ordinary, choice, files;
      history := [files];
      chargedFiles, chargedBytes := 0, 0;
    }

    /** One change of the file system. */
    method Become(next: Files)
      modifies this`files, this`history
      ensures Valid() && Path() == old(Path()).Then(next)
    {
      files := next;
      history := history + [next];
    }

    /** `CacheSeedBudget::charge`. */
    method Charge(bytes: nat) returns (ok: bool)
      modifies this`chargedFiles, this`chargedBytes
      ensures (Path(), ok) == Charged(old(Path()), bytes)
    {
      chargedFiles := chargedFiles + 1;
      if chargedFiles > MAX_FILES { return false; }
      chargedBytes := chargedBytes + bytes;
      return chargedBytes <= MAX_TOTAL_BYTES;
    }

    method Unstage(spot: Spot)
      requires Valid()
      modifies this`files, this`history
      ensures Valid() && Path() == Unstaged(env, old(Path()), spot)
    {
      if env.answers(RemoveStaging(spot)) { Become(files - {Staging(spot, env.tag)}); }
    }

    method StageCopy(spot: Spot, content: Bytes)
      requires Valid()
      modifies this`files, this`history
      ensures Valid() && Path() == Staged(env, old(Path()), spot, content)
    {
      var name := Staging(spot, env.tag);
      var length := if env.answers(Copy(spot)) then |content| else Least(env.written(spot), |content|);
      Become(files[name := []]);
      assert files[name := content[..length]] == old(files)[name := content[..length]];
      Become(files[name := content[..length]]);
    }

    method SeedByCopy(spot: Spot, content: Bytes) returns (seeded: Option<nat>)
      requires Valid()
      modifies this`files, this`history
      ensures Valid() && (Path(), seeded) == Copied(env, old(Path()), spot, content)
    {
      hide Staged, Unstaged;
      if !env.answers(CreateStaging(spot)) { return None; }
      StageCopy(spot, content);
      if !env.answers(Copy(spot)) {
        Unstage(spot);
        return None;
      }
      if env.answers(Rename(spot)) {
        Become((files - {Staging(spot, env.tag)})[spot := content]);
        return Some(|content|);
      }
      Unstage(spot);
      return if spot in files && env.answers(InspectTargetAgain(spot)) then Some(0) else None;
    }

    /** `seed_one_cache_file`: a hard link, or a staged copy renamed into place. */
    method SeedOne(source: Item, spot: Spot, maxBytes: nat) returns (seeded: Option<nat>)
      requires Valid()
      modifies this`files, this`history
      ensures Valid() && (Path(), seeded) == SeededOne(env, old(Path()), source, spot, maxBytes)
    {
      hide Copied;
      if !env.answers(InspectSource(spot)) || !source.File? { return None; }
      if |source.content| > maxBytes { return None; }
      if spot in files && env.answers(InspectTarget(spot)) { return Some(0); }
      if !env.answers(MakeParent(spot)) { return None; }
      if spot !in files && env.answers(Operation.Link(spot)) {
        Become(files[spot := source.content]);
        return Some(|source.content|);
      }
      if spot in files && env.answers(LinkFindsTarget(spot)) { return Some(0); }
      if !env.answers(OpenSource(spot)) { return None; }
      seeded := SeedByCopy(spot, source.content);
    }

    method SeedCharged(source: Item, spot: Spot, maxBytes: nat) returns (ok: bool)
      requires Valid()
      modifies this
      ensures Valid() && (Path(), ok) == SeededCharged(env, old(Path()), source, spot, maxBytes)
    {
      hide SeededOne;
      var seeded := SeedOne(source, spot, maxBytes);
      if seeded.None? { return false; }
      ok := Charge(seeded.value);
    }

    method SeedEntry(directory: Directory, entries: seq<Entry<Bytes>>, i: nat) returns (ok: bool)
      requires Valid() && i < |entries|
      modifies this
      ensures Valid() && (Path(), ok) == SeededEntry(env, old(Path()), directory, choice.bundle, entries, i)
    {
      hide SeededCharged, CacheKey.SafeComponent;
      if !env.answers(ReadEntry(directory, i)) { return false; }
      if !Named(entries[i], PrefixOf(directory, choice.bundle)) { return true; }
      if !env.answers(InspectEntry(directory, i)) { return false; }
      if !entries[i].node.File? { return true; }
      ok := SeedCharged(entries[i].node, Target(directory, choice.bundle, entries[i].name.value), MAX_FILE_BYTES);
    }

    /** `seed_flat_bundle_directory` and `seed_bundle_formats`. */
    method SeedDirectory(directory: Directory, item: Option<Item>) returns (ok: bool)
      requires Valid()
      modifies this
      ensures Valid() && (Path(), ok) == SeededDirectory(env, old(Path()), directory, choice.bundle, item)
    {
      hide SeededEntry;
      if !env.answers(List(directory)) { return false; }
      if item.None? { return true; }
      if !item.value.Dir? { return false; }
      var entries := item.value.entries;
      for i := 0 to |entries|
        invariant Valid() && (Path(), true) == SeededEntries(env, old(Path()), directory, choice.bundle, entries, i)
      {
        var fine := SeedEntry(directory, entries, i);
        if !fine {
          EntriesStop(env, old(Path()), directory, choice.bundle, entries, i + 1, |entries|);
          return false;
        }
      }
      return true;
    }

    /** After the bundle is chosen: index, bundle, formats, and the marker last. */
    method Seed() returns (ok: bool)
      requires Valid()
      modifies this
      ensures Valid() && (Path(), ok) == Seeded(env, old(Path()), ordinary, choice)
    {
      hide SeededCharged, SeededDirectory;
      var index := IndexSeen(env, ordinary, choice);
      if index.Some? {
        var indexed := SeedCharged(index.value, Index(choice.bundle), MAX_INDEX_BYTES);
        if !indexed { return false; }
      }
      var bundled := SeedDirectory(Bundle, Lookup(ordinary.bundles, choice.bundle));
      if !bundled { return false; }
      var formatted := SeedDirectory(Formats, ordinary.formats);
      if !formatted { return false; }
      ok := SeedCharged(File(choice.content), Marker(choice.name), 65);
    }
  }

  /** A listing that stops goes no further. */
  lemma {:induction false} EntriesStop(env: Env, t: Trail, directory: Directory, bundle: Bytes, entries: seq<Entry<Bytes>>, m: nat, n: nat)
    requires t.Begun() && m <= n <= |entries| && !SeededEntries(env, t, directory, bundle, entries, m).1
    ensures SeededEntries(env, t, directory, bundle, entries, n) == SeededEntries(env, t, directory, bundle, entries, m)
    decreases n
  {
    hide SeededEntry;
    if m < n { EntriesStop(env, t, directory, bundle, entries, m, n - 1); }
  }

  /** `seed_probe_tectonic_cache_from`, with every state of the controlled cache. */
  method SeedProbeTectonicCacheFrom(env: Env, place: Place, locator: Bytes, files: Files)
    returns (ok: bool, after: Files, ghost history: seq<Files>)
    ensures ok == Outcome(env, place, locator, files).1
    ensures after == Outcome(env, place, locator, files).0.Now()
    ensures history == Outcome(env, place, locator, files).0.states
  {
    hide Seeded, Chosen;
    ok, after, history := false, files, [files];
    if !env.answers(InspectCache) { return; }
    match place
    case Missing => ok := true;
    case NotDirectory =>
    case Cache(ordinary, same) =>
      if same { return true, files, [files]; }
      if !env.answers(ReadHashes) { return; }
      var choice := OrdinaryBundleMarker(ordinary, locator);
      if choice.None? || !env.answers(ReadMarker) { return; }
      var probe := new Probe(env, ordinary, choice.value, files);
      ok := probe.Seed();
      after, history := probe.files, probe.history;
  }
}
