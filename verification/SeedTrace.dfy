/** Runs of cache seeding: what holds in every state, whatever the file system answers. */
module SeedTrace {
  import opened Bytes
  import opened Wrappers
  import opened FileTree
  import opened CacheSeed
  import CacheKey
  import Utf8

  // ---- what seeding may write ----

  /** Everything but the marker that the ordinary cache holds for the bundle is there. */
  ghost predicate Complete(env: Env, ordinary: Ordinary, choice: Choice, files: Files) {
    && (IndexSeen(env, ordinary, choice).Some? ==> Index(choice.bundle) in files)
    && BundlePresent(ordinary, choice, files)
    && FormatsPresent(ordinary, choice, files)
  }

  ghost predicate BundlePresent(ordinary: Ordinary, choice: Choice, files: Files) {
    forall name, content :: Holds(Lookup(ordinary.bundles, choice.bundle), name, content) ==> BundleFile(choice.bundle, name) in files
  }

  ghost predicate FormatsPresent(ordinary: Ordinary, choice: Choice, files: Files) {
    forall name, content :: choice.bundle + [DASH] <= name && Holds(ordinary.formats, name, content) ==> Format(name) in files
  }

  /** Neither the inspection of the target nor the attempt to link tells that a file is there already. */
  predicate Unseen(env: Env, spot: Spot) {
    !env.answers(InspectTarget(spot)) && !env.answers(LinkFindsTarget(spot))
  }

  /** One job of seeding: the environment, what is offered, and the controlled cache before. */
  datatype Job = Job(env: Env, ordinary: Ordinary, choice: Choice, before: Files)
  {
    /** No file of the controlled cache has a staging name of this run. */
    ghost predicate FreshNames() {
      forall spot :: spot in before && spot.Staging? ==> spot.tag != env.tag
    }

    /** A file that was there is as it was, or was not seen and is now the one offered. */
    ghost predicate Kept(files: Files) {
      forall spot :: spot in before ==>
        spot in files && (files[spot] == before[spot] || (Unseen(env, spot) && Offers(ordinary, choice, spot, files[spot])))
    }

    /** What is new is offered, or staged by this run. */
    ghost predicate OnlyOffered(files: Files) {
      forall spot :: spot in files && spot !in before ==>
        (spot.Staging? && spot.tag == env.tag && !spot.target.Staging?) || Offers(ordinary, choice, spot, files[spot])
    }

    /** A marker that is new comes after everything else. */
    ghost predicate MarkerLast(files: Files) {
      Marker(choice.name) in files && Marker(choice.name) !in before ==> Complete(env, ordinary, choice, files)
    }

    /** A state that seeding may pass through. */
    ghost predicate Lawful(files: Files) { Kept(files) && OnlyOffered(files) && MarkerLast(files) }

    /** The only staged copies left over are of files that are there and were not seen. */
    ghost predicate Settled(files: Files) {
      forall spot :: spot in files && spot !in before && spot.Staging? ==>
        !spot.target.Staging? && spot.target in files && Unseen(env, spot.target)
    }
  }

  /** No file outside the staging area goes away. */
  ghost predicate Grows(before: Files, files: Files) {
    forall spot :: spot in before && !spot.Staging? ==> spot in files
  }

  lemma CompleteKept(env: Env, ordinary: Ordinary, choice: Choice, before: Files, files: Files)
    requires Complete(env, ordinary, choice, before) && Grows(before, files)
    ensures Complete(env, ordinary, choice, files)
  {
    hide Holds;
  }

  // ---- what fits the budget ----

  function Listing(directory: Option<Item>): seq<Entry<Bytes>> {
    if directory.Some? && directory.value.Dir? then directory.value.entries else []
  }

  /** The bytes of the regular files listed. */
  function Weight(entries: seq<Entry<Bytes>>): nat {
    if entries == [] then 0
    else
      var last := entries[|entries| - 1].node;
      Weight(entries[..|entries| - 1]) + if last.File? then |last.content| else 0
  }

  lemma WeightNext(entries: seq<Entry<Bytes>>, i: nat)
    requires i < |entries|
    ensures Weight(entries[..i + 1]) == Weight(entries[..i]) + if entries[i].node.File? then |entries[i].node.content| else 0
    ensures Weight(entries[..i + 1]) <= Weight(entries)
    decreases |entries| - i
  {
    assert entries[..i + 1][..i] == entries[..i];
    if i + 1 < |entries| { WeightNext(entries, i + 1); } else { assert entries[..i + 1] == entries; }
  }

  /** A directory, or nothing, with no file over the limit among those to be seeded. */
  ghost predicate Seedable(directory: Option<Item>, prefix: Bytes) {
    && (directory.Some? ==> directory.value.Dir?)
    && forall name, content :: prefix <= name && Holds(directory, name, content) ==> |content| <= MAX_FILE_BYTES
  }

  /** Everything offered is what it should be, and within the limits on files and bytes. */
  ghost predicate FitsBudget(ordinary: Ordinary, choice: Choice, index: Option<Item>) {
    var bundle := Lookup(ordinary.bundles, choice.bundle);
    && (index.Some? ==> index.value.File? && |index.value.content| <= MAX_INDEX_BYTES)
    && Seedable(bundle, []) && Seedable(ordinary.formats, choice.bundle + [DASH])
    && |choice.content| <= 65
    && |Listing(bundle)| + |Listing(ordinary.formats)| + 2 <= MAX_FILES
    && (if index.Some? then |index.value.content| else 0) + Weight(Listing(bundle)) + Weight(Listing(ordinary.formats))
       + |choice.content| <= MAX_TOTAL_BYTES
  }

  // ---- every state is lawful ----

  ghost predicate AllLawful(job: Job, t: Trail) {
    t.Begun() && forall i :: 0 <= i < |t.states| ==> job.Lawful(t.states[i])
  }

  /** After a success so far: nothing staged is left, and the budget covers every added file. */
  ghost predicate Within(job: Job, t: Trail) {
    && t.Begun() && job.Settled(t.Now()) && |t.Now()| <= |job.before| + t.files
    && t.files <= MAX_FILES && t.bytes <= MAX_TOTAL_BYTES
  }

  lemma Moved(job: Job, now: Files, next: Files)
    requires job.Lawful(now) && Grows(now, next)
    requires forall spot :: spot in job.before ==>
               && spot in next && spot in now
               && (next[spot] == now[spot] || (Unseen(job.env, spot) && Offers(job.ordinary, job.choice, spot, next[spot])))
    requires forall spot :: spot in next && spot !in job.before ==>
               || (spot in now && next[spot] == now[spot])
               || (spot.Staging? && spot.tag == job.env.tag && !spot.target.Staging?)
               || Offers(job.ordinary, job.choice, spot, next[spot])
    requires Marker(job.choice.name) in next && Marker(job.choice.name) !in now ==>
               Complete(job.env, job.ordinary, job.choice, next)
    ensures job.Lawful(next)
  {
    hide Offers, Complete;
    if Marker(job.choice.name) in now && Marker(job.choice.name) !in job.before {
      CompleteKept(job.env, job.ordinary, job.choice, now, next);
    }
  }

  lemma ThenLawful(job: Job, t: Trail, next: Files)
    requires AllLawful(job, t) && job.Lawful(next)
    ensures AllLawful(job, t.Then(next))
  {
  }

  /** What seeding one file needs of it: it is offered, and the marker comes last. */
  ghost predicate MaySeed(job: Job, t: Trail, source: Item, spot: Spot)
    requires t.Begun()
  {
    && job.FreshNames() && !spot.Staging?
    && (source.File? ==> Offers(job.ordinary, job.choice, spot, source.content))
    && (spot == Marker(job.choice.name) ==> Complete(job.env, job.ordinary, job.choice, t.Now()))
  }

  lemma UnstagedLawful(job: Job, t: Trail, spot: Spot)
    requires AllLawful(job, t) && job.FreshNames() && !spot.Staging?
    ensures var u := Unstaged(job.env, t, spot); AllLawful(job, u) && Grows(t.Now(), u.Now()) && u.files == t.files && u.bytes == t.bytes
  {
    hide Job.Lawful, Offers, Complete;
    if job.env.answers(RemoveStaging(spot)) {
      var next := t.Now() - {Staging(spot, job.env.tag)};
      LawfulFacts(job, t.Now());
      Moved(job, t.Now(), next);
      ThenLawful(job, t, next);
    }
  }

  lemma LawfulFacts(job: Job, files: Files)
    requires job.Lawful(files)
    ensures forall spot :: spot in job.before ==> spot in files
  {
  }

  lemma StagedLawful(job: Job, t: Trail, spot: Spot, content: Bytes)
    requires AllLawful(job, t) && job.FreshNames() && !spot.Staging?
    ensures var u := Staged(job.env, t, spot, content); var name := Staging(spot, job.env.tag);
      && AllLawful(job, u) && u.files == t.files && u.bytes == t.bytes
      && name in u.Now() && u.Now() - {name} == t.Now() - {name} && (job.env.answers(Copy(spot)) ==> u.Now()[name] == content)
  {
    hide Job.Lawful, Offers, Complete;
    var name := Staging(spot, job.env.tag);
    var length := if job.env.answers(Copy(spot)) then |content| else Least(job.env.written(spot), |content|);
    LawfulFacts(job, t.Now());
    Moved(job, t.Now(), t.Now()[name := []]);
    ThenLawful(job, t, t.Now()[name := []]);
    Moved(job, t.Now(), t.Now()[name := content[..length]]);
    ThenLawful(job, t.Then(t.Now()[name := []]), t.Now()[name := content[..length]]);
  }

  lemma RenamedLawful(job: Job, t: Trail, staged: Trail, spot: Spot, content: Bytes)
    requires AllLawful(job, t) && AllLawful(job, staged) && MaySeed(job, t, File(content), spot)
    requires var name := Staging(spot, job.env.tag); name in staged.Now() && staged.Now() - {name} == t.Now() - {name}
    requires spot in t.Now() ==> Unseen(job.env, spot)
    ensures var u := staged.Then((staged.Now() - {Staging(spot, job.env.tag)})[spot := content]);
      && AllLawful(job, u) && Grows(t.Now(), u.Now()) && spot in u.Now() && |u.Now()| <= |t.Now()| + 1
      && (job.Settled(t.Now()) ==> job.Settled(u.Now()))
  {
    var now := t.Now();
    LawfulFacts(job, now);
    hide Job.Lawful, Offers, Complete;
    var next := (now - {Staging(spot, job.env.tag)})[spot := content];
    assert next == (staged.Now() - {Staging(spot, job.env.tag)})[spot := content];
    if spot == Marker(job.choice.name) { CompleteKept(job.env, job.ordinary, job.choice, now, next); }
    Moved(job, now, next);
    ThenLawful(job, staged, next);
    hide AllLawful;
    SettledRename(job, now, spot, content);
  }

  lemma SettledRename(job: Job, now: Files, spot: Spot, content: Bytes)
    requires !spot.Staging?
    ensures var next := (now - {Staging(spot, job.env.tag)})[spot := content];
      |next| <= |now| + 1 && (job.Settled(now) ==> job.Settled(next))
  {
    var next := (now - {Staging(spot, job.env.tag)})[spot := content];
    assert next.Keys <= now.Keys + {spot};
    FewerKeys(next.Keys, now.Keys + {spot});
  }

  lemma FewerKeys(a: set<Spot>, b: set<Spot>)
    requires a <= b
    ensures |a| <= |b|
  {
    assert b == a + (b - a);
  }

  lemma CopiedLawful(job: Job, t: Trail, spot: Spot, content: Bytes)
    requires AllLawful(job, t) && MaySeed(job, t, File(content), spot)
    requires spot in t.Now() ==> Unseen(job.env, spot)
    ensures var (u, seeded) := Copied(job.env, t, spot, content);
      && AllLawful(job, u) && Grows(t.Now(), u.Now()) && u.files == t.files && u.bytes == t.bytes
      && (seeded.Some? ==> seeded.value <= |content| && spot in u.Now() && |u.Now()| <= |t.Now()| + 1
                           && (job.Settled(t.Now()) ==> job.Settled(u.Now())))
  {
    assert t.Begun();
    hide Job.Lawful, Offers, Complete, Staged, Unstaged, MaySeed, AllLawful;
    MaySeedFacts(job, t, File(content), spot);
    if job.env.answers(CreateStaging(spot)) {
      var staged := Staged(job.env, t, spot, content);
      StagedLawful(job, t, spot, content);
      UnstagedLawful(job, staged, spot);
      RenamedLawful(job, t, staged, spot, content);
      var left := Unstaged(job.env, staged, spot);
      StagedLeft(job, t, staged, left, spot);
    }
  }

  lemma MaySeedFacts(job: Job, t: Trail, source: Item, spot: Spot)
    requires t.Begun() && MaySeed(job, t, source, spot)
    ensures job.FreshNames() && !spot.Staging?
  {
  }

  /** A staged copy that may be left over, of a file that is there. */
  lemma StagedLeft(job: Job, t: Trail, staged: Trail, left: Trail, spot: Spot)
    requires t.Begun() && staged.Begun() && left.Begun() && !spot.Staging?
    requires var name := Staging(spot, job.env.tag); name in staged.Now() && staged.Now() - {name} == t.Now() - {name}
    requires left == Unstaged(job.env, staged, spot)
    requires spot in t.Now() ==> Unseen(job.env, spot)
    ensures Grows(t.Now(), left.Now()) && |left.Now()| <= |t.Now()| + 1
    ensures spot in left.Now() && job.Settled(t.Now()) ==> job.Settled(left.Now())
  {
    var name := Staging(spot, job.env.tag);
    assert forall other :: other != name ==>
      (other in t.Now() <==> other in t.Now() - {name}) && (other in staged.Now() <==> other in staged.Now() - {name});
    assert left.Now().Keys <= t.Now().Keys + {name};
    FewerKeys(left.Now().Keys, t.Now().Keys + {name});
  }

  lemma SeededOneLawful(job: Job, t: Trail, source: Item, spot: Spot, maxBytes: nat)
    requires AllLawful(job, t) && MaySeed(job, t, source, spot)
    ensures var (u, seeded) := SeededOne(job.env, t, source, spot, maxBytes);
      && AllLawful(job, u) && Grows(t.Now(), u.Now()) && u.files == t.files && u.bytes == t.bytes
      && (seeded.Some? ==> source.File? && seeded.value <= |source.content| && spot in u.Now() && |u.Now()| <= |t.Now()| + 1
                           && (job.Settled(t.Now()) ==> job.Settled(u.Now())))
  {
    assert t.Begun();
    hide Job.Lawful, Offers, Complete, Copied, Job.Settled, AllLawful;
    if source.File? {
      if spot in t.Now() ==> Unseen(job.env, spot) { CopiedLawful(job, t, spot, source.content); }
      if spot !in t.Now() { LinkedLawful(job, t, spot, source.content); }
    }
  }

  lemma LinkedLawful(job: Job, t: Trail, spot: Spot, content: Bytes)
    requires AllLawful(job, t) && MaySeed(job, t, File(content), spot) && spot !in t.Now()
    ensures var u := t.Then(t.Now()[spot := content]);
      && AllLawful(job, u) && Grows(t.Now(), u.Now()) && |u.Now()| <= |t.Now()| + 1
      && (job.Settled(t.Now()) ==> job.Settled(u.Now()))
  {
    hide Job.Lawful, Offers, Complete;
    var now, next := t.Now(), t.Now()[spot := content];
    LawfulFacts(job, now);
    if spot == Marker(job.choice.name) { CompleteKept(job.env, job.ordinary, job.choice, now, next); }
    Moved(job, now, next);
    ThenLawful(job, t, next);
    FewerKeys(next.Keys, now.Keys + {spot});
  }

  lemma SeededChargedLawful(job: Job, t: Trail, source: Item, spot: Spot, maxBytes: nat)
    requires AllLawful(job, t) && Within(job, t) && MaySeed(job, t, source, spot)
    ensures var (u, ok) := SeededCharged(job.env, t, source, spot, maxBytes);
      && AllLawful(job, u) && Grows(t.Now(), u.Now()) && (ok ==> Within(job, u) && spot in u.Now())
  {
    hide Job.Lawful, Job.Settled, MaySeed, SeededOne;
    SeededOneLawful(job, t, source, spot, maxBytes);
  }

  function ListingOf(ordinary: Ordinary, choice: Choice, directory: Directory): Option<Item> {
    if directory.Bundle? then Lookup(ordinary.bundles, choice.bundle) else ordinary.formats
  }

  /** An entry that had to be seeded is there. */
  ghost predicate Taken(directory: Directory, bundle: Bytes, entry: Entry<Bytes>, files: Files) {
    Named(entry, PrefixOf(directory, bundle)) && entry.node.File? ==> Target(directory, bundle, entry.name.value) in files
  }

  lemma SeededEntryLawful(job: Job, t: Trail, directory: Directory, entries: seq<Entry<Bytes>>, i: nat)
    requires AllLawful(job, t) && Within(job, t) && job.FreshNames() && i < |entries|
    requires entries == Listing(ListingOf(job.ordinary, job.choice, directory))
    ensures var (u, ok) := SeededEntry(job.env, t, directory, job.choice.bundle, entries, i);
      && AllLawful(job, u) && Grows(t.Now(), u.Now())
      && (ok ==> Within(job, u) && Taken(directory, job.choice.bundle, entries[i], u.Now()))
  {
    hide Job.Lawful, Job.Settled, SeededCharged, CacheKey.SafeComponent, Complete;
    var entry := entries[i];
    if Named(entry, PrefixOf(directory, job.choice.bundle)) && entry.node.File? {
      var spot := Target(directory, job.choice.bundle, entry.name.value);
      assert Entry(Some(entry.name.value), File(entry.node.content)) in entries;
      assert Holds(ListingOf(job.ordinary, job.choice, directory), entry.name.value, entry.node.content);
      assert Offers(job.ordinary, job.choice, spot, entry.node.content);
      SeededChargedLawful(job, t, entry.node, spot, MAX_FILE_BYTES);
    }
  }

  /** What the first `n` entries of a listing come to. */
  ghost predicate EntriesDone(job: Job, t: Trail, u: Trail, ok: bool, directory: Directory, entries: seq<Entry<Bytes>>, n: nat)
    requires t.Begun() && n <= |entries|
  {
    && AllLawful(job, u) && Grows(t.Now(), u.Now())
    && (ok ==> Within(job, u) && forall j :: 0 <= j < n ==> Taken(directory, job.choice.bundle, entries[j], u.Now()))
  }

  lemma DoneNext(job: Job, t: Trail, v: Trail, u: Trail, ok: bool, directory: Directory, entries: seq<Entry<Bytes>>, n: nat)
    requires t.Begun() && 0 < n <= |entries|
    requires EntriesDone(job, t, v, true, directory, entries, n - 1)
    requires AllLawful(job, u) && Grows(v.Now(), u.Now())
    requires ok ==> Within(job, u) && Taken(directory, job.choice.bundle, entries[n - 1], u.Now())
    ensures EntriesDone(job, t, u, ok, directory, entries, n)
  {
    assert v.Begun() && u.Begun();
    hide Taken, Within, Job.Lawful;
    forall j | 0 <= j < n - 1 ensures Taken(directory, job.choice.bundle, entries[j], u.Now()) {
      TakenKept(directory, job.choice.bundle, entries[j], v.Now(), u.Now());
    }
  }

  lemma DoneStart(job: Job, t: Trail, directory: Directory, entries: seq<Entry<Bytes>>)
    requires AllLawful(job, t) && Within(job, t)
    ensures EntriesDone(job, t, t, true, directory, entries, 0)
  {
  }

  lemma DoneFailed(job: Job, t: Trail, u: Trail, directory: Directory, entries: seq<Entry<Bytes>>, n: nat)
    requires t.Begun() && 0 < n <= |entries| && EntriesDone(job, t, u, false, directory, entries, n - 1)
    ensures EntriesDone(job, t, u, false, directory, entries, n)
  {
  }

  lemma EntriesUnfold(env: Env, t: Trail, directory: Directory, bundle: Bytes, entries: seq<Entry<Bytes>>, n: nat)
    requires t.Begun() && n <= |entries|
    ensures n == 0 ==> SeededEntries(env, t, directory, bundle, entries, n) == (t, true)
    ensures n > 0 ==>
              var before := SeededEntries(env, t, directory, bundle, entries, n - 1);
              SeededEntries(env, t, directory, bundle, entries, n)
              == if before.1 then SeededEntry(env, before.0, directory, bundle, entries, n - 1) else (before.0, false)
  {
  }

  lemma EntryFacts(job: Job, v: Trail, u: Trail, ok: bool, directory: Directory, entries: seq<Entry<Bytes>>, i: nat)
    requires AllLawful(job, v) && Within(job, v) && job.FreshNames() && i < |entries|
    requires entries == Listing(ListingOf(job.ordinary, job.choice, directory))
    requires (u, ok) == SeededEntry(job.env, v, directory, job.choice.bundle, entries, i)
    ensures AllLawful(job, u) && u.Begun() && Grows(v.Now(), u.Now())
    ensures ok ==> Within(job, u) && Taken(directory, job.choice.bundle, entries[i], u.Now())
  {
    hide *;
    SeededEntryLawful(job, v, directory, entries, i);
  }

  ghost predicate EntriesLawful(job: Job, t: Trail, directory: Directory, entries: seq<Entry<Bytes>>, n: nat)
    requires t.Begun() && n <= |entries|
  {
    var (u, ok) := SeededEntries(job.env, t, directory, job.choice.bundle, entries, n);
    EntriesDone(job, t, u, ok, directory, entries, n)
  }

  lemma EntriesStep(job: Job, t: Trail, directory: Directory, entries: seq<Entry<Bytes>>, n: nat)
    requires t.Begun() && 0 < n <= |entries| && EntriesLawful(job, t, directory, entries, n - 1)
    requires job.FreshNames() && entries == Listing(ListingOf(job.ordinary, job.choice, directory))
    ensures EntriesLawful(job, t, directory, entries, n)
  {
    var (v, fine) := SeededEntries(job.env, t, directory, job.choice.bundle, entries, n - 1);
    assert fine ==> AllLawful(job, v) && Within(job, v);
    hide AllLawful, Within, EntriesDone, SeededEntry, Job.FreshNames, Listing, ListingOf, Taken, Grows;
    if fine {
      var (u, ok) := SeededEntry(job.env, v, directory, job.choice.bundle, entries, n - 1);
      EntryFacts(job, v, u, ok, directory, entries, n - 1);
      DoneNext(job, t, v, u, ok, directory, entries, n);
    } else {
      DoneFailed(job, t, v, directory, entries, n);
    }
  }

  lemma EntriesStart(job: Job, t: Trail, directory: Directory, entries: seq<Entry<Bytes>>)
    requires AllLawful(job, t) && Within(job, t)
    ensures t.Begun() && EntriesLawful(job, t, directory, entries, 0)
  {
    DoneStart(job, t, directory, entries);
  }

  lemma {:induction false} SeededEntriesLawful(job: Job, t: Trail, directory: Directory, entries: seq<Entry<Bytes>>, n: nat)
    requires t.Begun() && n <= |entries| && EntriesLawful(job, t, directory, entries, 0)
    requires job.FreshNames() && entries == Listing(ListingOf(job.ordinary, job.choice, directory))
    ensures EntriesLawful(job, t, directory, entries, n)
    decreases n
  {
    hide EntriesLawful, Job.FreshNames, Listing, ListingOf;
    if n > 0 {
      SeededEntriesLawful(job, t, directory, entries, n - 1);
      EntriesStep(job, t, directory, entries, n);
    }
  }

  lemma TakenKept(directory: Directory, bundle: Bytes, entry: Entry<Bytes>, before: Files, files: Files)
    requires Taken(directory, bundle, entry, before) && Grows(before, files)
    ensures Taken(directory, bundle, entry, files)
  {
  }

  lemma SeededDirectoryLawful(job: Job, t: Trail, directory: Directory)
    requires AllLawful(job, t) && Within(job, t) && job.FreshNames()
    ensures var item := ListingOf(job.ordinary, job.choice, directory);
      var (u, ok) := SeededDirectory(job.env, t, directory, job.choice.bundle, item);
      && AllLawful(job, u) && Grows(t.Now(), u.Now())
      && (ok ==> Within(job, u) && forall name, content :: PrefixOf(directory, job.choice.bundle) <= name && Holds(item, name, content)
                                                           ==> Target(directory, job.choice.bundle, name) in u.Now())
  {
    assert t.Begun();
    hide AllLawful, Within, SeededEntries, CacheKey.SafeComponent;
    var item := ListingOf(job.ordinary, job.choice, directory);
    if item.Some? && item.value.Dir? {
      var entries := item.value.entries;
      EntriesStart(job, t, directory, entries);
      SeededEntriesLawful(job, t, directory, entries, |entries|);
      var (u, ok) := SeededDirectory(job.env, t, directory, job.choice.bundle, item);
      forall name, content | ok && PrefixOf(directory, job.choice.bundle) <= name && Holds(item, name, content)
        ensures Target(directory, job.choice.bundle, name) in u.Now()
      {
        var j :| 0 <= j < |entries| && entries[j] == Entry(Some(name), File(content));
        assert Taken(directory, job.choice.bundle, entries[j], u.Now());
      }
    }
  }

  lemma SeededIndexLawful(job: Job, t: Trail)
    requires AllLawful(job, t) && Within(job, t) && job.FreshNames()
    ensures var (u, ok) := SeededIndex(job.env, t, job.ordinary, job.choice);
      && AllLawful(job, u) && Grows(t.Now(), u.Now())
      && (ok ==> Within(job, u) && (IndexSeen(job.env, job.ordinary, job.choice).Some? ==> Index(job.choice.bundle) in u.Now()))
  {
    hide Job.Lawful, Job.Settled, SeededCharged, Complete;
    var index := IndexSeen(job.env, job.ordinary, job.choice);
    if index.Some? {
      SeededChargedLawful(job, t, index.value, Index(job.choice.bundle), MAX_INDEX_BYTES);
    }
  }

  lemma SeededContentsLawful(job: Job, t: Trail)
    requires AllLawful(job, t) && Within(job, t) && job.FreshNames()
    ensures var (u, ok) := SeededContents(job.env, t, job.ordinary, job.choice);
      && AllLawful(job, u) && (ok ==> Within(job, u) && Complete(job.env, job.ordinary, job.choice, u.Now()))
  {
    assert t.Begun();
    hide AllLawful, Within, SeededIndex, SeededDirectory, Holds, IndexSeen;
    SeededIndexLawful(job, t);
    var (indexed, ok) := SeededIndex(job.env, t, job.ordinary, job.choice);
    if ok {
      SeededDirectoryLawful(job, indexed, Bundle);
      var (bundled, ok) := SeededDirectory(job.env, indexed, Bundle, job.choice.bundle, Lookup(job.ordinary.bundles, job.choice.bundle));
      if ok {
        assert BundlePresent(job.ordinary, job.choice, bundled.Now());
        SeededDirectoryLawful(job, bundled, Formats);
      }
    }
  }

  lemma SeededLawful(job: Job)
    requires job.FreshNames()
    ensures var (u, ok) := Seeded(job.env, Start(job.before), job.ordinary, job.choice);
      && AllLawful(job, u)
      && (ok ==> Within(job, u) && Complete(job.env, job.ordinary, job.choice, u.Now()) && Marker(job.choice.name) in u.Now())
  {
    hide SeededContents, SeededCharged, Complete, Offers;
    var start := Start(job.before);
    SeededContentsLawful(job, start);
    var (ready, ok) := SeededContents(job.env, start, job.ordinary, job.choice);
    if ok {
      assert Offers(job.ordinary, job.choice, Marker(job.choice.name), job.choice.content) by { MarkerOffered(job.ordinary, job.choice); }
      SeededChargedLawful(job, ready, File(job.choice.content), Marker(job.choice.name), 65);
      var (after, _) := SeededCharged(job.env, ready, File(job.choice.content), Marker(job.choice.name), 65);
      CompleteKept(job.env, job.ordinary, job.choice, ready.Now(), after.Now());
    }
  }

  lemma MarkerOffered(ordinary: Ordinary, choice: Choice)
    ensures Offers(ordinary, choice, Marker(choice.name), choice.content)
  {
  }

  // ---- nothing else happens to the index ----

  /** Apart from the spot itself, seeding one file leaves the set of files outside the staging area as it was. */
  lemma OnlyThere(env: Env, t: Trail, source: Item, spot: Spot, maxBytes: nat, other: Spot)
    requires t.Begun() && other != spot && !other.Staging?
    ensures other in SeededCharged(env, t, source, spot, maxBytes).0.Now() <==> other in t.Now()
  {
  }

  lemma {:induction false} EntriesLeaveIndex(env: Env, t: Trail, directory: Directory, bundle: Bytes, entries: seq<Entry<Bytes>>, n: nat)
    requires t.Begun() && n <= |entries|
    ensures Index(bundle) in SeededEntries(env, t, directory, bundle, entries, n).0.Now() <==> Index(bundle) in t.Now()
  {
    hide SeededCharged, CacheKey.SafeComponent;
    if n > 0 {
      EntriesLeaveIndex(env, t, directory, bundle, entries, n - 1);
      var (before, ok) := SeededEntries(env, t, directory, bundle, entries, n - 1);
      if ok && Named(entries[n - 1], PrefixOf(directory, bundle)) {
        OnlyThere(env, before, entries[n - 1].node, Target(directory, bundle, entries[n - 1].name.value), MAX_FILE_BYTES, Index(bundle));
      }
    }
  }

  /** After a success the index is there exactly when it could be inspected or was there before. */
  lemma IndexExact(env: Env, ordinary: Ordinary, choice: Choice, files: Files)
    requires forall spot :: spot in files && spot.Staging? ==> spot.tag != env.tag
    requires Seeded(env, Start(files), ordinary, choice).1
    ensures Index(choice.bundle) in Seeded(env, Start(files), ordinary, choice).0.Now()
            <==> IndexSeen(env, ordinary, choice).Some? || Index(choice.bundle) in files
  {
    SeededLawful(Job(env, ordinary, choice, files));
    hide AllLawful, SeededCharged, SeededEntries, IndexSeen;
    var index, bundle := Index(choice.bundle), choice.bundle;
    var (indexed, _) := SeededIndex(env, Start(files), ordinary, choice);
    var (bundled, _) := SeededDirectory(env, indexed, Bundle, bundle, Lookup(ordinary.bundles, bundle));
    var (ready, _) := SeededDirectory(env, bundled, Formats, bundle, ordinary.formats);
    DirectoryLeavesIndex(env, indexed, Bundle, bundle, Lookup(ordinary.bundles, bundle));
    DirectoryLeavesIndex(env, bundled, Formats, bundle, ordinary.formats);
    OnlyThere(env, ready, File(choice.content), Marker(choice.name), 65, index);
  }

  lemma DirectoryLeavesIndex(env: Env, t: Trail, directory: Directory, bundle: Bytes, item: Option<Item>)
    requires t.Begun()
    ensures Index(bundle) in SeededDirectory(env, t, directory, bundle, item).0.Now() <==> Index(bundle) in t.Now()
  {
    hide SeededEntries;
    if item.Some? && item.value.Dir? { EntriesLeaveIndex(env, t, directory, bundle, item.value.entries, |item.value.entries|); }
  }

  // ---- when nothing fails but links and the inspection of targets ----

  /** Only the inspection of targets, links, what a link reports and the inspection of the index may say no. */
  ghost predicate Smooth(env: Env) {
    forall operation: Operation ::
      operation.InspectTarget? || operation.Link? || operation.LinkFindsTarget? || operation.InspectIndex? || env.answers(operation)
  }

  lemma SmoothCharged(env: Env, t: Trail, source: Item, spot: Spot, maxBytes: nat)
    requires Smooth(env) && t.Begun() && source.File? && |source.content| <= maxBytes
    requires t.files < MAX_FILES && t.bytes + |source.content| <= MAX_TOTAL_BYTES
    ensures var (u, ok) := SeededCharged(env, t, source, spot, maxBytes);
      && ok && u.files == t.files + 1 && u.bytes <= t.bytes + |source.content|
      && (spot in t.Now() && Unseen(env, spot) ==> spot in u.Now() && u.Now()[spot] == source.content)
  {
    assert env.answers(InspectSource(spot)) && env.answers(MakeParent(spot));
    assert env.answers(OpenSource(spot)) && env.answers(CreateStaging(spot)) && env.answers(Copy(spot)) && env.answers(Rename(spot));
  }

  lemma {:induction false} SmoothEntries(env: Env, t: Trail, directory: Directory, bundle: Bytes, item: Option<Item>, n: nat)
    requires Smooth(env) && t.Begun() && n <= |Listing(item)| && Seedable(item, PrefixOf(directory, bundle))
    requires t.files + n <= MAX_FILES && t.bytes + Weight(Listing(item)[..n]) <= MAX_TOTAL_BYTES
    ensures var (u, ok) := SeededEntries(env, t, directory, bundle, Listing(item), n);
      ok && u.files <= t.files + n && u.bytes <= t.bytes + Weight(Listing(item)[..n])
  {
    hide SeededCharged, CacheKey.SafeComponent, Smooth;
    var entries := Listing(item);
    if n > 0 {
      WeightNext(entries, n - 1);
      SmoothEntries(env, t, directory, bundle, item, n - 1);
      var (v, _) := SeededEntries(env, t, directory, bundle, entries, n - 1);
      SmoothEntry(env, v, directory, bundle, item, n - 1);
    }
  }

  lemma SmoothEntry(env: Env, t: Trail, directory: Directory, bundle: Bytes, item: Option<Item>, i: nat)
    requires Smooth(env) && t.Begun() && i < |Listing(item)| && Seedable(item, PrefixOf(directory, bundle))
    requires var node := Listing(item)[i].node;
      t.files < MAX_FILES && t.bytes + (if node.File? then |node.content| else 0) <= MAX_TOTAL_BYTES
    ensures var node := Listing(item)[i].node; var (u, ok) := SeededEntry(env, t, directory, bundle, Listing(item), i);
      && ok && u.files <= t.files + 1 && u.bytes <= t.bytes + (if node.File? then |node.content| else 0)
      && (Named(Listing(item)[i], PrefixOf(directory, bundle)) && node.File?
          ==> var spot := Target(directory, bundle, Listing(item)[i].name.value);
              spot in t.Now() && Unseen(env, spot) ==> spot in u.Now() && u.Now()[spot] == node.content)
  {
    hide SeededCharged, CacheKey.SafeComponent;
    var entry := Listing(item)[i];
    assert env.answers(ReadEntry(directory, i)) && env.answers(InspectEntry(directory, i));
    if Named(entry, PrefixOf(directory, bundle)) && entry.node.File? {
      assert Entry(Some(entry.name.value), File(entry.node.content)) in Listing(item);
      assert Holds(item, entry.name.value, entry.node.content);
      SmoothCharged(env, t, entry.node, Target(directory, bundle, entry.name.value), MAX_FILE_BYTES);
    }
  }

  lemma SmoothDirectory(env: Env, t: Trail, directory: Directory, bundle: Bytes, item: Option<Item>)
    requires Smooth(env) && t.Begun() && Seedable(item, PrefixOf(directory, bundle))
    requires t.files + |Listing(item)| <= MAX_FILES && t.bytes + Weight(Listing(item)) <= MAX_TOTAL_BYTES
    ensures var (u, ok) := SeededDirectory(env, t, directory, bundle, item);
      ok && u.files <= t.files + |Listing(item)| && u.bytes <= t.bytes + Weight(Listing(item))
  {
    hide SeededEntries;
    assert env.answers(List(directory));
    assert Listing(item)[..|Listing(item)|] == Listing(item);
    SmoothEntries(env, t, directory, bundle, item, |Listing(item)|);
  }

  /** Then seeding succeeds for whatever fits the budget. */
  lemma SmoothSucceeds(env: Env, ordinary: Ordinary, choice: Choice, files: Files)
    requires Smooth(env) && FitsBudget(ordinary, choice, IndexSeen(env, ordinary, choice))
    ensures Seeded(env, Start(files), ordinary, choice).1
  {
    hide SeededCharged, SeededDirectory, IndexSeen, Seedable, Weight, Smooth;
    var index := IndexSeen(env, ordinary, choice);
    if index.Some? { SmoothCharged(env, Start(files), index.value, Index(choice.bundle), MAX_INDEX_BYTES); }
    var (indexed, _) := SeededIndex(env, Start(files), ordinary, choice);
    SmoothDirectory(env, indexed, Bundle, choice.bundle, Lookup(ordinary.bundles, choice.bundle));
    var (bundled, _) := SeededDirectory(env, indexed, Bundle, choice.bundle, Lookup(ordinary.bundles, choice.bundle));
    SmoothDirectory(env, bundled, Formats, choice.bundle, ordinary.formats);
    var (ready, _) := SeededDirectory(env, bundled, Formats, choice.bundle, ordinary.formats);
    SmoothCharged(env, ready, File(choice.content), Marker(choice.name), 65);
  }

  // ---- what every run keeps ----

  ghost predicate Fresh(env: Env, files: Files) {
    forall spot :: spot in files && spot.Staging? ==> spot.tag != env.tag
  }

  /**
   * In every state of every run, whatever fails: files that were there are as they were or were not seen and are now the
   * ones offered; only files of the chosen bundle are new; and a marker that is new comes after everything else.
   */
  lemma EveryStateLawful(env: Env, place: Place, locator: Bytes, files: Files, choice: Choice)
    requires place.Cache? && Chosen(place.ordinary, locator, choice) && Fresh(env, files)
    ensures var states := Outcome(env, place, locator, files).0.states;
      forall i :: 0 <= i < |states| ==> Job(env, place.ordinary, choice, files).Lawful(states[i])
  {
    hide Chosen, Seeded, Offers, Complete;
    var job := Job(env, place.ordinary, choice, files);
    var found := BundleChoice(place.ordinary, locator);
    if found.Some? { ChosenOnce(place.ordinary, locator, found.value, choice); }
    assert job.Lawful(files);
    SeededLawful(job);
  }

  /** Without a bundle to seed nothing changes. */
  lemma NothingToSeed(env: Env, place: Place, locator: Bytes, files: Files)
    requires !place.Cache? || place.same || (forall choice :: !Chosen(place.ordinary, locator, choice))
    ensures Outcome(env, place, locator, files).0.states == [files]
    ensures Outcome(env, place, locator, files).1 <==> env.answers(InspectCache) && (place.Missing? || (place.Cache? && place.same))
  {
    hide Chosen, Seeded;
  }

  /** After a success everything that could be seen is there, the index exactly if it was seen or there before. */
  lemma SuccessComplete(env: Env, place: Place, locator: Bytes, files: Files)
    requires place.Cache? && !place.same && Fresh(env, files) && Outcome(env, place, locator, files).1
    ensures var after := Outcome(env, place, locator, files).0.Now();
      && |after| <= |files| + MAX_FILES
      && exists choice :: Chosen(place.ordinary, locator, choice) && SeededFully(env, place.ordinary, choice, files, after)
  {
    hide Chosen, Seeded, Complete, IndexSeen;
    var choice := BundleChoice(place.ordinary, locator).value;
    SeededLawful(Job(env, place.ordinary, choice, files));
    IndexExact(env, place.ordinary, choice, files);
    assert SeededFully(env, place.ordinary, choice, files, Outcome(env, place, locator, files).0.Now());
  }

  /** The marker and all else is there, the index exactly if it was seen or there before, and no staged copy without cause. */
  ghost predicate SeededFully(env: Env, ordinary: Ordinary, choice: Choice, files: Files, after: Files) {
    && Marker(choice.name) in after && Complete(env, ordinary, choice, after)
    && (Index(choice.bundle) in after <==> IndexSeen(env, ordinary, choice).Some? || Index(choice.bundle) in files)
    && Job(env, ordinary, choice, files).Settled(after)
  }

  /** When nothing fails but links and the inspection of targets and of the index, what fits the budget is seeded. */
  lemma SeedingSucceeds(env: Env, place: Place, locator: Bytes, files: Files, choice: Choice)
    requires Smooth(env) && place.Cache? && |place.ordinary.hashes| <= MAX_LOCATORS
    requires Chosen(place.ordinary, locator, choice) && FitsBudget(place.ordinary, choice, IndexSeen(env, place.ordinary, choice))
    ensures Outcome(env, place, locator, files).1
    ensures !place.same ==> Outcome(env, place, locator, files) == Seeded(env, Start(files), place.ordinary, choice)
  {
    hide Chosen, Seeded, FitsBudget, IndexSeen;
    assert env.answers(InspectCache) && env.answers(ReadHashes) && env.answers(ReadMarker);
    ChosenOnce(place.ordinary, locator, BundleChoice(place.ordinary, locator).value, choice);
    SmoothSucceeds(env, place.ordinary, choice, files);
  }

  // ---- what a success rests on ----

  /** A file that was seeded could be inspected, is a regular file within its limit, and was seen, linked or copied. */
  ghost predicate Sourced(env: Env, source: Item, spot: Spot, maxBytes: nat) {
    && env.answers(InspectSource(spot)) && source.File? && |source.content| <= maxBytes
    && (env.answers(InspectTarget(spot)) || env.answers(MakeParent(spot)))
    && (|| env.answers(InspectTarget(spot)) || env.answers(LinkFindsTarget(spot)) || env.answers(Operation.Link(spot))
        || (env.answers(OpenSource(spot)) && env.answers(CreateStaging(spot)) && env.answers(Copy(spot))
            && (env.answers(Rename(spot)) || env.answers(InspectTargetAgain(spot)))))
  }

  lemma ChargedNeeds(env: Env, t: Trail, source: Item, spot: Spot, maxBytes: nat)
    requires t.Begun() && SeededCharged(env, t, source, spot, maxBytes).1
    ensures Sourced(env, source, spot, maxBytes)
  {
  }

  /** Every entry of the listing was read, every one with the right name inspected, and every file among these seeded. */
  ghost predicate Walked(env: Env, directory: Directory, bundle: Bytes, entries: seq<Entry<Bytes>>, n: nat)
    requires n <= |entries|
  {
    forall i: nat :: i < n ==>
      && env.answers(ReadEntry(directory, i))
      && (Named(entries[i], PrefixOf(directory, bundle)) ==>
            && env.answers(InspectEntry(directory, i))
            && (entries[i].node.File? ==>
                  Sourced(env, entries[i].node, Target(directory, bundle, entries[i].name.value), 0x1000_0000)))
  }

  lemma {:induction false} EntriesNeed(env: Env, t: Trail, directory: Directory, bundle: Bytes, entries: seq<Entry<Bytes>>, n: nat)
    requires t.Begun() && n <= |entries| && SeededEntries(env, t, directory, bundle, entries, n).1
    ensures Walked(env, directory, bundle, entries, n)
  {
    hide SeededCharged, Sourced, CacheKey.SafeComponent;
    if n > 0 {
      EntriesNeed(env, t, directory, bundle, entries, n - 1);
      var (before, _) := SeededEntries(env, t, directory, bundle, entries, n - 1);
      var entry := entries[n - 1];
      if Named(entry, PrefixOf(directory, bundle)) && entry.node.File? {
        ChargedNeeds(env, before, entry.node, Target(directory, bundle, entry.name.value), MAX_FILE_BYTES);
      }
    }
  }

  /** A directory that could be looked at: not there, or a directory all of whose entries were walked. */
  ghost predicate Visited(env: Env, directory: Directory, bundle: Bytes, item: Option<Item>) {
    && env.answers(List(directory))
    && (item.None? || (item.value.Dir? && Walked(env, directory, bundle, item.value.entries, |item.value.entries|)))
  }

  lemma DirectoryNeeds(env: Env, t: Trail, directory: Directory, bundle: Bytes, item: Option<Item>)
    requires t.Begun() && SeededDirectory(env, t, directory, bundle, item).1
    ensures Visited(env, directory, bundle, item)
  {
    hide SeededEntries, Walked;
    if item.Some? { EntriesNeed(env, t, directory, bundle, item.value.entries, |item.value.entries|); }
  }

  /** What a run that succeeds has been answered. */
  ghost predicate Answered(env: Env, ordinary: Ordinary, choice: Choice) {
    && env.answers(InspectCache) && env.answers(ReadHashes) && env.answers(ReadMarker)
    && (env.answers(InspectIndex) && choice.bundle in ordinary.indexes ==>
          Sourced(env, ordinary.indexes[choice.bundle], Index(choice.bundle), 0x400_0000))
    && Visited(env, Bundle, choice.bundle, if choice.bundle in ordinary.bundles then Some(ordinary.bundles[choice.bundle]) else None)
    && Visited(env, Formats, choice.bundle, ordinary.formats)
    && Sourced(env, File(choice.content), Marker(choice.name), 65)
  }

  /** No run succeeds past an operation that failed: everything was read and inspected, and every file seen, linked or copied. */
  lemma SuccessNeeds(env: Env, place: Place, locator: Bytes, files: Files, choice: Choice)
    requires place.Cache? && !place.same && Outcome(env, place, locator, files).1 && Chosen(place.ordinary, locator, choice)
    ensures Answered(env, place.ordinary, choice)
  {
    hide Chosen, SeededCharged, SeededDirectory, Visited, Sourced;
    ChosenOnce(place.ordinary, locator, BundleChoice(place.ordinary, locator).value, choice);
    var ordinary, bundle := place.ordinary, choice.bundle;
    var index := IndexSeen(env, ordinary, choice);
    if index.Some? { ChargedNeeds(env, Start(files), index.value, Index(bundle), MAX_INDEX_BYTES); }
    var (indexed, _) := SeededIndex(env, Start(files), ordinary, choice);
    DirectoryNeeds(env, indexed, Bundle, bundle, Lookup(ordinary.bundles, bundle));
    var (bundled, _) := SeededDirectory(env, indexed, Bundle, bundle, Lookup(ordinary.bundles, bundle));
    DirectoryNeeds(env, bundled, Formats, bundle, ordinary.formats);
    var (ready, _) := SeededDirectory(env, bundled, Formats, bundle, ordinary.formats);
    ChargedNeeds(env, ready, File(choice.content), Marker(choice.name), 65);
  }

  /** A directory of the ordinary cache has the entry. */
  ghost predicate Lists(directory: Item, name: Bytes, content: Bytes) {
    directory.Dir? && exists i :: 0 <= i < |directory.entries| && directory.entries[i] == Entry(Some(name), File(content))
  }

  /** What a marker, an index, a bundle directory and the formats offer: safely named regular files, formats by their prefix. */
  lemma OffersExact(ordinary: Ordinary, choice: Choice, spot: Spot, content: Bytes)
    ensures Offers(ordinary, choice, spot, content) <==>
      match spot
      case Marker(name) => name == choice.name && content == choice.content
      case Index(bundle) => bundle == choice.bundle && bundle in ordinary.indexes && ordinary.indexes[bundle] == File(content)
      case BundleFile(bundle, name) =>
        && bundle == choice.bundle && CacheKey.SafeComponent(name)
        && bundle in ordinary.bundles && Lists(ordinary.bundles[bundle], name, content)
      case Format(name) =>
        && CacheKey.SafeComponent(name) && choice.bundle + [45] <= name
        && ordinary.formats.Some? && Lists(ordinary.formats.value, name, content)
      case Staging(_, _) => false
  {
    hide CacheKey.SafeComponent;
  }

  /** After a success everything that is offered is there, but perhaps an index that could not be inspected. */
  lemma AllSeeded(env: Env, place: Place, locator: Bytes, files: Files, choice: Choice, spot: Spot, content: Bytes)
    requires place.Cache? && !place.same && Fresh(env, files) && Outcome(env, place, locator, files).1
    requires Chosen(place.ordinary, locator, choice) && Offers(place.ordinary, choice, spot, content)
    ensures spot in Outcome(env, place, locator, files).0.Now() || (spot.Index? && !env.answers(InspectIndex))
  {
    hide Chosen, Seeded, Outcome, CacheKey.SafeComponent;
    SuccessComplete(env, place, locator, files);
    var after := Outcome(env, place, locator, files).0.Now();
    var other :| Chosen(place.ordinary, locator, other) && SeededFully(env, place.ordinary, other, files, after);
    ChosenOnce(place.ordinary, locator, other, choice);
  }

  // ---- when files that were there survive ----

  ghost predicate Passed(t: Trail, spot: Spot, content: Bytes) {
    exists i :: 0 <= i < |t.states| && spot in t.states[i] && t.states[i][spot] == content
  }

  lemma PassedLater(t: Trail, u: Trail, spot: Spot, content: Bytes)
    requires Passed(t, spot, content) && t.states <= u.states
    ensures Passed(u, spot, content)
  {
    var i :| 0 <= i < |t.states| && spot in t.states[i] && t.states[i][spot] == content;
    assert u.states[i] == t.states[i];
  }

  lemma PassedNow(t: Trail, spot: Spot, content: Bytes)
    requires t.Begun() && spot in t.Now() && t.Now()[spot] == content
    ensures Passed(t, spot, content)
  {
    assert t.states[|t.states| - 1] == t.Now();
  }

  lemma {:induction false} EntriesExtend(env: Env, t: Trail, directory: Directory, bundle: Bytes, entries: seq<Entry<Bytes>>, m: nat, n: nat)
    requires t.Begun() && m <= n <= |entries|
    ensures SeededEntries(env, t, directory, bundle, entries, m).0.states <= SeededEntries(env, t, directory, bundle, entries, n).0.states
    decreases n
  {
    hide SeededEntry;
    if m < n { EntriesExtend(env, t, directory, bundle, entries, m, n - 1); }
  }

  lemma EntryPassed(job: Job, t: Trail, directory: Directory, item: Option<Item>, j: nat)
    requires Smooth(job.env) && AllLawful(job, t) && Within(job, t) && job.FreshNames()
    requires item == ListingOf(job.ordinary, job.choice, directory) && j < |Listing(item)|
    requires Seedable(item, PrefixOf(directory, job.choice.bundle))
    requires t.files + |Listing(item)| <= MAX_FILES && t.bytes + Weight(Listing(item)) <= MAX_TOTAL_BYTES
    requires Named(Listing(item)[j], PrefixOf(directory, job.choice.bundle)) && Listing(item)[j].node.File?
    requires var spot := Target(directory, job.choice.bundle, Listing(item)[j].name.value);
      spot in job.before && Unseen(job.env, spot)
    ensures t.Begun()
    ensures var spot := Target(directory, job.choice.bundle, Listing(item)[j].name.value);
      Passed(SeededEntries(job.env, t, directory, job.choice.bundle, Listing(item), j + 1).0, spot, Listing(item)[j].node.content)
  {
    var bundle, entries := job.choice.bundle, Listing(item);
    var spot := Target(directory, bundle, entries[j].name.value);
    hide SeededEntry, Seedable, Unseen, CacheKey.SafeComponent, Weight, Smooth;
    EntriesStart(job, t, directory, entries);
    SeededEntriesLawful(job, t, directory, entries, j);
    WeightNext(entries, j);
    SmoothEntries(job.env, t, directory, bundle, item, j);
    var (v, _) := SeededEntries(job.env, t, directory, bundle, entries, j);
    assert spot in v.Now() by { StillThere(job, v, spot); }
    hide AllLawful, Within, EntriesLawful, Job.FreshNames;
    SmoothEntry(job.env, v, directory, bundle, item, j);
    var (u, _) := SeededEntry(job.env, v, directory, bundle, entries, j);
    PassedNow(u, spot, entries[j].node.content);
  }

  lemma StillThere(job: Job, t: Trail, spot: Spot)
    requires AllLawful(job, t) && spot in job.before
    ensures t.Begun() && spot in t.Now()
  {
    assert job.Lawful(t.states[|t.states| - 1]);
  }

  lemma DirectoryPassed(job: Job, t: Trail, directory: Directory, name: Bytes, content: Bytes)
    requires Smooth(job.env) && AllLawful(job, t) && Within(job, t) && job.FreshNames()
    requires var item := ListingOf(job.ordinary, job.choice, directory);
      && Seedable(item, PrefixOf(directory, job.choice.bundle))
      && t.files + |Listing(item)| <= MAX_FILES && t.bytes + Weight(Listing(item)) <= MAX_TOTAL_BYTES
      && PrefixOf(directory, job.choice.bundle) <= name && Holds(item, name, content)
    requires var spot := Target(directory, job.choice.bundle, name); spot in job.before && Unseen(job.env, spot)
    ensures t.Begun()
    ensures Passed(SeededDirectory(job.env, t, directory, job.choice.bundle, ListingOf(job.ordinary, job.choice, directory)).0,
                   Target(directory, job.choice.bundle, name), content)
  {
    var item := ListingOf(job.ordinary, job.choice, directory);
    var entries := Listing(item);
    var j :| 0 <= j < |entries| && entries[j] == Entry(Some(name), File(content));
    EntryPassed(job, t, directory, item, j);
    hide AllLawful, Within, SeededEntries, Seedable, Unseen, CacheKey.SafeComponent, Weight;
    EntriesExtend(job.env, t, directory, job.choice.bundle, entries, j + 1, |entries|);
    assert job.env.answers(List(directory));
    PassedLater(SeededEntries(job.env, t, directory, job.choice.bundle, entries, j + 1).0,
                SeededEntries(job.env, t, directory, job.choice.bundle, entries, |entries|).0,
                Target(directory, job.choice.bundle, name), content);
  }

  ghost function AfterIndex(job: Job): (t: Trail)
    ensures t.Begun()
  {
    SeededIndex(job.env, Start(job.before), job.ordinary, job.choice).0
  }

  ghost function AfterBundle(job: Job): (t: Trail)
    ensures t.Begun()
  {
    SeededDirectory(job.env, AfterIndex(job), Bundle, job.choice.bundle, ListingOf(job.ordinary, job.choice, Bundle)).0
  }

  ghost function AfterFormats(job: Job): (t: Trail)
    ensures t.Begun()
  {
    SeededDirectory(job.env, AfterBundle(job), Formats, job.choice.bundle, ListingOf(job.ordinary, job.choice, Formats)).0
  }

  ghost predicate Feasible(job: Job) {
    Smooth(job.env) && job.FreshNames() && FitsBudget(job.ordinary, job.choice, IndexSeen(job.env, job.ordinary, job.choice))
  }

  /** Where a directory can be seeded without a failure. */
  ghost predicate Ready(job: Job, t: Trail, directory: Directory) {
    var item := ListingOf(job.ordinary, job.choice, directory);
    && AllLawful(job, t) && Within(job, t) && Seedable(item, PrefixOf(directory, job.choice.bundle))
    && t.files + |Listing(item)| <= MAX_FILES && t.bytes + Weight(Listing(item)) <= MAX_TOTAL_BYTES
  }

  lemma IndexStage(job: Job)
    requires Feasible(job)
    ensures SeededIndex(job.env, Start(job.before), job.ordinary, job.choice).1
    ensures AllLawful(job, AfterIndex(job)) && Within(job, AfterIndex(job)) && AfterIndex(job).files <= 1
    ensures var index := IndexSeen(job.env, job.ordinary, job.choice);
      AfterIndex(job).bytes <= if index.Some? then |index.value.content| else 0
    ensures var index := IndexSeen(job.env, job.ordinary, job.choice);
      && index.Some? ==> index.value.File? && (Index(job.choice.bundle) in job.before && Unseen(job.env, Index(job.choice.bundle))
                                               ==> Passed(AfterIndex(job), Index(job.choice.bundle), index.value.content))
  {
    StartLawful(job);
    SeededIndexLawful(job, Start(job.before));
    var index := IndexSeen(job.env, job.ordinary, job.choice);
    hide AllLawful, Within, SeededCharged, Seedable, Weight, Unseen, Smooth, Job.FreshNames, IndexSeen, Listing;
    if index.Some? {
      SmoothCharged(job.env, Start(job.before), index.value, Index(job.choice.bundle), MAX_INDEX_BYTES);
      if Index(job.choice.bundle) in job.before && Unseen(job.env, Index(job.choice.bundle)) {
        PassedNow(AfterIndex(job), Index(job.choice.bundle), index.value.content);
      }
    }
  }

  lemma BundleStage(job: Job)
    requires Feasible(job)
    ensures Ready(job, AfterIndex(job), Bundle) && Ready(job, AfterBundle(job), Formats)
    ensures SeededDirectory(job.env, AfterIndex(job), Bundle, job.choice.bundle, ListingOf(job.ordinary, job.choice, Bundle)).1
  {
    IndexStage(job);
    hide AllLawful, Within, SeededDirectory, AfterIndex, Seedable, Weight, Smooth, Job.FreshNames, IndexSeen, Listing;
    SmoothDirectory(job.env, AfterIndex(job), Bundle, job.choice.bundle, ListingOf(job.ordinary, job.choice, Bundle));
    SeededDirectoryLawful(job, AfterIndex(job), Bundle);
  }

  lemma FormatsStage(job: Job)
    requires Feasible(job)
    ensures AllLawful(job, AfterFormats(job)) && AfterFormats(job).files < MAX_FILES
    ensures AfterFormats(job).bytes + |job.choice.content| <= MAX_TOTAL_BYTES
    ensures SeededDirectory(job.env, AfterBundle(job), Formats, job.choice.bundle, ListingOf(job.ordinary, job.choice, Formats)).1
  {
    IndexStage(job);
    BundleStage(job);
    hide AllLawful, Within, SeededDirectory, AfterIndex, Seedable, Weight, Smooth, Job.FreshNames, IndexSeen, Listing;
    SmoothDirectory(job.env, AfterIndex(job), Bundle, job.choice.bundle, ListingOf(job.ordinary, job.choice, Bundle));
    SmoothDirectory(job.env, AfterBundle(job), Formats, job.choice.bundle, ListingOf(job.ordinary, job.choice, Formats));
    SeededDirectoryLawful(job, AfterBundle(job), Formats);
  }

  /** A run in which all stages go through is their sequence, the marker last. */
  lemma StagesInOrder(job: Job)
    requires Feasible(job)
    ensures var whole := Seeded(job.env, Start(job.before), job.ordinary, job.choice).0;
      && AfterIndex(job).states <= AfterBundle(job).states <= AfterFormats(job).states <= whole.states
      && whole == SeededCharged(job.env, AfterFormats(job), File(job.choice.content), Marker(job.choice.name), 65).0
  {
    IndexStage(job);
    BundleStage(job);
    FormatsStage(job);
    hide AllLawful, Within, SeededCharged, SeededDirectory, SeededIndex, FitsBudget, Smooth, Job.FreshNames, Ready;
  }

  /** A file that is there, is offered and is not seen is replaced, when nothing else fails. */
  lemma UnseenIsReplaced(job: Job, spot: Spot, content: Bytes)
    requires Feasible(job)
    requires Offers(job.ordinary, job.choice, spot, content) && spot in job.before && Unseen(job.env, spot)
    requires spot.Index? ==> job.env.answers(InspectIndex)
    ensures Passed(Seeded(job.env, Start(job.before), job.ordinary, job.choice).0, spot, content)
  {
    var whole := Seeded(job.env, Start(job.before), job.ordinary, job.choice).0;
    StagesInOrder(job);
    hide Seeded;
    match spot
    case Index(_) =>
      IndexStage(job);
      PassedLater(AfterIndex(job), whole, spot, content);
    case BundleFile(_, name) =>
      BundleStage(job);
      hide AllLawful, Within, AfterIndex, Seedable, Weight, Holds, Unseen;
      DirectoryPassed(job, AfterIndex(job), Bundle, name, content);
      PassedLater(AfterBundle(job), whole, spot, content);
    case Format(name) =>
      BundleStage(job);
      hide AllLawful, Within, AfterBundle, Seedable, Weight, Holds, Unseen;
      DirectoryPassed(job, AfterBundle(job), Formats, name, content);
      PassedLater(AfterFormats(job), whole, spot, content);
    case Marker(_) =>
      FormatsStage(job);
      hide Within, AfterFormats, Seedable, Weight, Unseen, SeededCharged;
      StillThere(job, AfterFormats(job), spot);
      hide AllLawful;
      SmoothCharged(job.env, AfterFormats(job), File(content), spot, 65);
      PassedNow(whole, spot, content);
    case Staging(_, _) =>
  }

  lemma StartLawful(job: Job)
    ensures AllLawful(job, Start(job.before)) && Within(job, Start(job.before))
  {
  }

  // ---- the exact condition ----

  /** What the inspection of a target and the attempt to link onto it answer. */
  ghost predicate Answering(env: Env, inspects: Spot -> bool, finds: Spot -> bool) {
    forall spot :: env.answers(InspectTarget(spot)) == inspects(spot) && env.answers(LinkFindsTarget(spot)) == finds(spot)
  }

  /** Every file that was there is in every state as it was. */
  ghost predicate Survive(env: Env, place: Place, locator: Bytes, files: Files) {
    AllHold(Outcome(env, place, locator, files).0.states, files)
  }

  ghost predicate AllHold(states: seq<Files>, files: Files) {
    forall i :: 0 <= i < |states| ==> Preserves(states[i], files)
  }

  ghost predicate Preserves(state: Files, files: Files) {
    forall spot :: spot in files ==> spot in state && state[spot] == files[spot]
  }

  /** Of every file that is there and differs from the one offered, one of the two tells. */
  ghost predicate AllSeen(ordinary: Ordinary, choice: Choice, files: Files, inspects: Spot -> bool, finds: Spot -> bool) {
    forall spot, content :: Offers(ordinary, choice, spot, content) && spot in files && files[spot] != content
      ==> inspects(spot) || finds(spot)
  }

  lemma SeenSurvive(env: Env, place: Place, locator: Bytes, choice: Choice, files: Files, inspects: Spot -> bool, finds: Spot -> bool)
    requires place.Cache? && Chosen(place.ordinary, locator, choice) && Fresh(env, files)
    requires Answering(env, inspects, finds) && AllSeen(place.ordinary, choice, files, inspects, finds)
    ensures Survive(env, place, locator, files)
  {
    hide Chosen, Outcome, Offers, Complete;
    EveryStateLawful(env, place, locator, files, choice);
    var states := Outcome(env, place, locator, files).0.states;
    var job := Job(env, place.ordinary, choice, files);
    forall i | 0 <= i < |states| ensures Preserves(states[i], files) {
      assert job.Lawful(states[i]);
    }
  }

  lemma {:induction false} UnusedTag(spots: set<Spot>) returns (tag: nat)
    ensures forall spot :: spot in spots && spot.Staging? ==> spot.tag < tag
    decreases spots
  {
    if spots == {} {
      tag := 0;
    } else {
      var spot :| spot in spots;
      tag := UnusedTag(spots - {spot});
      if spot.Staging? && spot.tag >= tag { tag := spot.tag + 1; }
    }
  }

  /** An environment with the given answers in which nothing else fails. */
  ghost function Otherwise(inspects: Spot -> bool, finds: Spot -> bool, index: bool, tag: nat): (env: Env)
    ensures Answering(env, inspects, finds) && Smooth(env) && env.answers(InspectIndex) == index && env.tag == tag
  {
    Env((operation: Operation) => Answer(operation, inspects, finds, index), _ => 0, tag)
  }

  ghost predicate Answer(operation: Operation, inspects: Spot -> bool, finds: Spot -> bool, index: bool) {
    match operation
    case InspectTarget(spot) => inspects(spot)
    case LinkFindsTarget(spot) => finds(spot)
    case InspectIndex => index
    case _ => true
  }

  /**
   * Whatever else fails, every run leaves every file that was there as it was, if and only if of each that differs from the
   * one offered either the inspection or the attempt to link tells that it is there.
   */
  lemma SurvivalExact(ordinary: Ordinary, locator: Bytes, choice: Choice, files: Files, inspects: Spot -> bool, finds: Spot -> bool)
    requires Chosen(ordinary, locator, choice) && |ordinary.hashes| <= MAX_LOCATORS
    requires FitsBudget(ordinary, choice, Lookup(ordinary.indexes, choice.bundle))
    ensures (forall env :: Answering(env, inspects, finds) && Fresh(env, files) ==> Survive(env, Cache(ordinary, false), locator, files))
            <==> AllSeen(ordinary, choice, files, inspects, finds)
  {
    hide Chosen, FitsBudget, Outcome, Offers, Survive, Answering;
    var place := Cache(ordinary, false);
    if AllSeen(ordinary, choice, files, inspects, finds) {
      forall env | Answering(env, inspects, finds) && Fresh(env, files) ensures Survive(env, place, locator, files) {
        SeenSurvive(env, place, locator, choice, files, inspects, finds);
      }
    } else {
      var spot, content :| Offers(ordinary, choice, spot, content) && spot in files && files[spot] != content
                           && !inspects(spot) && !finds(spot);
      var env := UnseenRun(ordinary, locator, choice, files, inspects, finds, spot, content);
    }
  }

  lemma UnseenRun(ordinary: Ordinary, locator: Bytes, choice: Choice, files: Files, inspects: Spot -> bool, finds: Spot -> bool,
                  spot: Spot, content: Bytes) returns (env: Env)
    requires Chosen(ordinary, locator, choice) && |ordinary.hashes| <= MAX_LOCATORS
    requires FitsBudget(ordinary, choice, Lookup(ordinary.indexes, choice.bundle))
    requires Offers(ordinary, choice, spot, content) && spot in files && files[spot] != content && !inspects(spot) && !finds(spot)
    ensures Answering(env, inspects, finds) && Fresh(env, files) && !Survive(env, Cache(ordinary, false), locator, files)
  {
    hide Chosen, FitsBudget, Offers, Seeded, Outcome;
    var tag := UnusedTag(files.Keys);
    env := Otherwise(inspects, finds, true, tag);
    var place := Cache(ordinary, false);
    SeedingSucceeds(env, place, locator, files, choice);
    UnseenIsReplaced(Job(env, ordinary, choice, files), spot, content);
    var states := Outcome(env, place, locator, files).0.states;
    var i :| 0 <= i < |states| && spot in states[i] && states[i][spot] == content;
    assert !Preserves(states[i], files);
  }

  // ---- two runs ----

  function Repeated(b: byte, n: nat): (r: Bytes)
    ensures |r| == n && forall i :: 0 <= i < n ==> r[i] == b
  {
    if n == 0 then [] else [b] + Repeated(b, n - 1)
  }

  const LOCATOR: Bytes := [97]
  const CONTENT: Bytes := Repeated(97, 64)
  const CHOICE := Choice(LOCATOR, CONTENT, CONTENT)

  /** A cache with one marker, perhaps an index, and nothing else. */
  function Small(indexes: map<Bytes, Item>): Ordinary { Ordinary([Entry(Some(LOCATOR), File(CONTENT))], indexes, map[], None) }

  lemma SmallChosen(indexes: map<Bytes, Item>)
    ensures Chosen(Small(indexes), LOCATOR, CHOICE)
  {
    var key: Bytes := [97];
    assert CacheKey.Encode([]) == [];
    assert CacheKey.Encode(key) == [97] + CacheKey.Encode(key[1..]);
    assert Utf8.Valid(key) by { assert key[1..] == []; assert Utf8.Valid([]); }
    CacheKey.RoundTrip(key);
    assert Locates(Small(indexes).hashes[0], LOCATOR);
    AllA(CONTENT);
  }

  lemma SmallFits(indexes: map<Bytes, Item>, index: Option<Item>)
    requires index.None? || index == Some(File([]))
    ensures FitsBudget(Small(indexes), CHOICE, index)
  {
  }

  lemma AllA(content: Bytes)
    requires |content| == 64 && forall i :: 0 <= i < |content| ==> content[i] == 97
    ensures Identity(content) == Some(content)
  {
    assert content[63] == 97;
    assert forall i :: 0 <= i < |content| ==> IsLowerHex(content[i]);
  }

  /** With nothing to seed but the marker, an unseen marker is replaced. */
  lemma MarkerOnly(env: Env, ordinary: Ordinary, choice: Choice, files: Files)
    requires Smooth(env) && ordinary.indexes == map[] && ordinary.bundles == map[] && ordinary.formats == None
    requires |choice.content| <= 65 && Marker(choice.name) in files && Unseen(env, Marker(choice.name))
    ensures var after := Seeded(env, Start(files), ordinary, choice).0.Now();
      Marker(choice.name) in after && after[Marker(choice.name)] == choice.content
  {
    assert env.answers(List(Bundle)) && env.answers(List(Formats));
    assert SeededContents(env, Start(files), ordinary, choice) == (Start(files), true);
    hide SeededCharged;
    SmoothCharged(env, Start(files), File(choice.content), Marker(choice.name), 65);
  }

  lemma UnseenMarkerReplaced(env: Env, files: Files)
    requires Smooth(env) && Marker(LOCATOR) in files && Unseen(env, Marker(LOCATOR))
    ensures var (t, ok) := Outcome(env, Cache(Small(map[]), false), LOCATOR, files);
      ok && Marker(LOCATOR) in t.Now() && t.Now()[Marker(LOCATOR)] == CONTENT
  {
    SmallChosen(map[]);
    SmallFits(map[], None);
    hide Chosen, FitsBudget, Smooth, Unseen, Outcome, Seeded;
    SeedingSucceeds(env, Cache(Small(map[]), false), LOCATOR, files, CHOICE);
    MarkerOnly(env, Small(map[]), CHOICE, files);
  }

  /** A marker that is there, cannot be inspected and is not found by the link is replaced by another one. */
  lemma MarkerReplaced() returns (env: Env)
    ensures var place := Cache(Small(map[]), false); var files := map[Marker(LOCATOR) := []];
      && Fresh(env, files) && Outcome(env, place, LOCATOR, files).1
      && Marker(LOCATOR) in Outcome(env, place, LOCATOR, files).0.Now()
      && Outcome(env, place, LOCATOR, files).0.Now()[Marker(LOCATOR)] == CONTENT != []
  {
    hide Outcome, Smooth, Small;
    env := Otherwise(_ => false, _ => false, true, 0);
    UnseenMarkerReplaced(env, map[Marker(LOCATOR) := []]);
  }

  /** An index that is there but cannot be inspected is left out of a run that succeeds, marker and all. */
  lemma UnreadableIndexSkipped() returns (env: Env)
    ensures var ordinary := Small(map[CONTENT := File([])]); var place := Cache(ordinary, false);
      && CONTENT in ordinary.indexes && Fresh(env, map[]) && Outcome(env, place, LOCATOR, map[]).1
      && Marker(LOCATOR) in Outcome(env, place, LOCATOR, map[]).0.Now()
      && Index(CONTENT) !in Outcome(env, place, LOCATOR, map[]).0.Now()
  {
    env := Otherwise(_ => true, _ => true, false, 0);
    var indexes := map[CONTENT := File([])];
    SmallChosen(indexes);
    SmallFits(indexes, None);
    SeedingSucceeds(env, Cache(Small(indexes), false), LOCATOR, map[], CHOICE);
    SuccessComplete(env, Cache(Small(indexes), false), LOCATOR, map[]);
    var choice :| Chosen(Small(indexes), LOCATOR, choice)
                  && SeededFully(env, Small(indexes), choice, map[], Outcome(env, Cache(Small(indexes), false), LOCATOR, map[]).0.Now());
    ChosenOnce(Small(indexes), LOCATOR, choice, CHOICE);
  }
}
