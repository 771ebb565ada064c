/** What a run of cache seeding may add: the bytes it writes are charged against the budget. */
module SeedBudget {
  import opened Bytes
  import opened Wrappers
  import opened FileTree
  import opened CacheSeed
  import CacheKey

  function SizeAt(files: Files, spot: Spot): nat
    requires spot in files
  {
    if spot.Staging? then 0 else |files[spot]|
  }

  /** The bytes in all files, staged copies left out. */
  ghost function Size(files: Files): nat
    decreases |files|
  {
    if files == map[] then 0
    else
      var spot :| spot in files;
      Less(files, spot);
      SizeAt(files, spot) + Size(files - {spot})
  }

  lemma Less(files: Files, spot: Spot)
    requires spot in files
    ensures |files - {spot}| < |files|
  {
    assert (files - {spot}).Keys == files.Keys - {spot};
    assert |(files - {spot}).Keys| == |files - {spot}| && |files.Keys| == |files|;
  }

  /** The sum may be taken with any file first. */
  lemma {:induction false} SizePick(files: Files, spot: Spot)
    requires spot in files
    ensures Size(files) == SizeAt(files, spot) + Size(files - {spot})
    decreases |files|
  {
    var first :| first in files && Size(files) == SizeAt(files, first) + Size(files - {first});
    if first != spot {
      Less(files, first);
      Less(files, spot);
      var some, others := files - {first}, files - {spot};
      assert spot in some && first in others && some - {spot} == others - {first};
      SizePick(some, spot);
      SizePick(others, first);
      assert SizeAt(some, spot) == SizeAt(files, spot) && SizeAt(others, first) == SizeAt(files, first);
    }
  }

  lemma SizeDrop(files: Files, spot: Spot)
    ensures Size(files - {spot}) <= Size(files)
    ensures spot.Staging? ==> Size(files - {spot}) == Size(files)
  {
    if spot in files { SizePick(files, spot); } else { assert files - {spot} == files; }
  }

  lemma SizePut(files: Files, spot: Spot, content: Bytes)
    ensures Size(files[spot := content]) <= Size(files) + |content|
    ensures spot.Staging? ==> Size(files[spot := content]) == Size(files)
  {
    SizePick(files[spot := content], spot);
    assert files[spot := content] - {spot} == files - {spot};
    SizeDrop(files, spot);
  }

  // ---- what one file adds ----

  lemma StagedSize(env: Env, t: Trail, spot: Spot, content: Bytes)
    requires t.Begun()
    ensures Size(Staged(env, t, spot, content).Now()) == Size(t.Now())
  {
    var name := Staging(spot, env.tag);
    var length := if env.answers(Copy(spot)) then |content| else Least(env.written(spot), |content|);
    SizePut(t.Now(), name, []);
    SizePut(t.Now(), name, content[..length]);
  }

  lemma UnstagedSize(env: Env, t: Trail, spot: Spot)
    requires t.Begun()
    ensures Size(Unstaged(env, t, spot).Now()) == Size(t.Now())
  {
    SizeDrop(t.Now(), Staging(spot, env.tag));
  }

  /** What a file adds to the cache is what its seeding reports. */
  lemma OneSize(env: Env, t: Trail, source: Item, spot: Spot, maxBytes: nat)
    requires t.Begun()
    ensures var (u, seeded) := SeededOne(env, t, source, spot, maxBytes);
      && u.bytes == t.bytes
      && Size(u.Now()) <= Size(t.Now()) + if seeded.Some? then seeded.value else 0
  {
    if source.File? {
      SizePut(t.Now(), spot, source.content);
      CopiedSize(env, t, spot, source.content);
    }
    hide Copied;
  }

  lemma CopiedSize(env: Env, t: Trail, spot: Spot, content: Bytes)
    requires t.Begun()
    ensures var (u, seeded) := Copied(env, t, spot, content);
      && u.bytes == t.bytes
      && Size(u.Now()) <= Size(t.Now()) + if seeded.Some? then seeded.value else 0
  {
    var staged, name := Staged(env, t, spot, content), Staging(spot, env.tag);
    StagedSize(env, t, spot, content);
    UnstagedSize(env, staged, spot);
    SizeDrop(staged.Now(), name);
    SizePut(staged.Now() - {name}, spot, content);
    StagedBytes(env, t, spot, content);
    hide Staged, Size;
  }

  lemma StagedBytes(env: Env, t: Trail, spot: Spot, content: Bytes)
    requires t.Begun()
    ensures Staged(env, t, spot, content).bytes == t.bytes && Unstaged(env, Staged(env, t, spot, content), spot).bytes == t.bytes
  {
  }

  // ---- what a run adds ----

  /** Between two moments of a run: nothing is added that is not charged, and the limit holds. */
  ghost predicate Paid(t: Trail, u: Trail)
    requires t.Begun() && u.Begun()
  {
    Size(u.Now()) + t.bytes <= Size(t.Now()) + u.bytes && (t.bytes <= MAX_TOTAL_BYTES ==> u.bytes <= MAX_TOTAL_BYTES)
  }

  lemma ChargedPaid(env: Env, t: Trail, source: Item, spot: Spot, maxBytes: nat)
    requires t.Begun()
    ensures var (u, ok) := SeededCharged(env, t, source, spot, maxBytes); ok ==> Paid(t, u)
  {
    hide SeededOne, Size;
    OneSize(env, t, source, spot, maxBytes);
  }

  lemma {:induction false} EntriesPaid(env: Env, t: Trail, directory: Directory, bundle: Bytes, entries: seq<Entry<Bytes>>, n: nat)
    requires t.Begun() && n <= |entries|
    ensures var (u, ok) := SeededEntries(env, t, directory, bundle, entries, n); ok ==> Paid(t, u)
  {
    hide SeededCharged, Size;
    if n > 0 {
      EntriesPaid(env, t, directory, bundle, entries, n - 1);
      var (before, ok) := SeededEntries(env, t, directory, bundle, entries, n - 1);
      if ok && Named(entries[n - 1], PrefixOf(directory, bundle)) {
        ChargedPaid(env, before, entries[n - 1].node, Target(directory, bundle, entries[n - 1].name.value), MAX_FILE_BYTES);
      }
    }
  }

  lemma DirectoryPaid(env: Env, t: Trail, directory: Directory, bundle: Bytes, item: Option<Item>)
    requires t.Begun()
    ensures var (u, ok) := SeededDirectory(env, t, directory, bundle, item); ok ==> Paid(t, u)
  {
    hide SeededEntries, Size;
    if item.Some? && item.value.Dir? { EntriesPaid(env, t, directory, bundle, item.value.entries, |item.value.entries|); }
  }

  /** A run that succeeds makes the cache grow by at most 1 GiB, staged copies left out. */
  lemma GrowthBounded(env: Env, place: Place, locator: Bytes, files: Files)
    requires Outcome(env, place, locator, files).1
    ensures Size(Outcome(env, place, locator, files).0.Now()) <= Size(files) + 0x4000_0000
  {
    hide Chosen, Seeded, Size;
    if place.Cache? && BundleChoice(place.ordinary, locator).Some? {
      SeededPaid(env, Start(files), place.ordinary, BundleChoice(place.ordinary, locator).value);
    }
  }

  lemma SeededPaid(env: Env, t: Trail, ordinary: Ordinary, choice: Choice)
    requires t.Begun()
    ensures var (u, ok) := Seeded(env, t, ordinary, choice); ok ==> Paid(t, u)
  {
    hide SeededCharged, SeededDirectory, IndexSeen, Size;
    var index := IndexSeen(env, ordinary, choice);
    if index.Some? { ChargedPaid(env, t, index.value, Index(choice.bundle), MAX_INDEX_BYTES); }
    var (indexed, _) := SeededIndex(env, t, ordinary, choice);
    DirectoryPaid(env, indexed, Bundle, choice.bundle, Lookup(ordinary.bundles, choice.bundle));
    var (bundled, _) := SeededDirectory(env, indexed, Bundle, choice.bundle, Lookup(ordinary.bundles, choice.bundle));
    DirectoryPaid(env, bundled, Formats, choice.bundle, ordinary.formats);
    var (ready, _) := SeededDirectory(env, bundled, Formats, choice.bundle, ordinary.formats);
    ChargedPaid(env, ready, File(choice.content), Marker(choice.name), 65);
  }
}
