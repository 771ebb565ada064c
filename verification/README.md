# Oleafly backend, verified model

Oleafly is a desktop editor for LaTeX and Typst. This project models the parts of its Rust backend in which
a small mistake would be hard to notice, and proves what they promise:

- **Checkpoint policies** (`Glob`, `CheckpointPolicy`, `FileTree`, `IncludeWalk`, `IncludeExact`): a glob matcher that remembers only the
  latest star, and the walks that expand a policy's patterns into project files.
- **The "nothing changed" test** (`CaptureCheck`): the fast comparison that lets a checkpoint be skipped, against the slow
  builder that it stands in for.
- **The compiler cache** (`CacheTree`, `CacheDescriptor`, `CacheCensus`, `CacheKey`, `CacheSeed`, `SeedTrace`, `SeedBudget`): the walk
  and the canonical descriptor of a cache tree, the comma-escaped cache keys, and the seeding of a controlled cache where every
  file operation may fail.
- **Background publication** (`PublicationLane`, `LaneTrace`, `LaneProgress`): per project one running publication and one successor,
  with the stop requests that they share.
- **The encrypted archive** (`ArchiveFormat`, `ArchiveLayout`, `ArchiveWriter`, `ArchiveReader`): both header versions, framing, counters,
  nonces and the authenticated end, over an ideal cipher.
- **Execution approvals** (`ExecApprovals`, `ExecTrace`, `ExecProgress`): one-time tokens, their eviction queue, running executions
  and cancelled runs.
- **Chunked transfers** (`Utf8`, `Utf8Exact`, `Chunked`): the windowed sender, its reference splitter and a receiver.
- **Agent run resources** (`RunResources`, `ResourceTrace`, `PendingTools`): five tables cleaned by guards, replacements and cancels,
  and the keys of pending tool calls.
- **Cookie domains** (`CookieDomain`): which cookies an import filter selects, in memory and in SQL.

Code that updates state in place is a class or a method with loops, tied by its `ensures` to a function of the old state.
The properties of whole runs are lemmas about those functions: a locked section is one step, a run is any sequence of steps
(steps that are not possible when their turn comes are skipped), and each theorem holds for every such sequence.

Some results are about where the code stops keeping a promise:

- The matcher compares characters before it looks for a star, so a star in the *candidate* uses up a star of the pattern.
  `Glob.AgreesExactly` shows that a file name is matched as the patterns say, for all patterns, exactly when it holds no star.
- The archive writer never uses a counter for two different frames until it reports that its counter has run out;
  a caller that goes on writing after that error does get a repeated counter (`ArchiveWriter.ExhaustedReuse`).
- The SQL prefilter of the cookie import agrees with the test in memory for valid cookie domains (`CookieDomain.SqlExact`); for
  others it can admit more (`CookieDomain.SqlAdmitsMore`), never less (`CookieDomain.SqlAdmits`).
- Cache seeding can replace a file that is already there: when neither the inspection of the target nor the attempt to link
  onto it tells that it exists, the staged copy is renamed over it (`SeedTrace.MarkerReplaced` is such a run).
  `SeedTrace.SurvivalExact` shows that every run leaves every existing file as it was exactly when, of each that differs from the
  one offered, one of the two tells.
- Cache seeding takes an index that it cannot inspect for a missing one, so a run can succeed, marker and all, without it
  (`SeedTrace.UnreadableIndexSkipped` is such a run). After a success the index is there exactly when it could be inspected or was
  there before (`SeedTrace.IndexExact`).

## Model

| member | source | states |
|---|---|---|
| Glob.WildcardComponentMatches | src-tauri/src/checkpoint_publication.rs:463-491 | folds both sides and runs the loops; what it returns is characterised by the lemmas below |
| Glob.ScanLoop | src-tauri/src/checkpoint_publication.rs:466-490 | the backtracking loop ends on every input and computes the scan from its start |
| Glob.MatchesSound | src-tauri/src/checkpoint_publication.rs:463-491 | whatever is accepted is denoted by the pattern: `?` one character, `*` any run, ASCII case aside |
| Glob.MatchesComplete | src-tauri/src/checkpoint_publication.rs:463-491 | without a star in the candidate everything denoted is accepted, so keeping only the latest star loses no match |
| Glob.AgreesExactly | src-tauri/src/checkpoint_publication.rs:463-491 | matcher and denotation agree on all patterns if and only if the candidate holds no star |
| Glob.MissedPattern | src-tauri/src/checkpoint_publication.rs:469-486 | for every candidate with a star, a pattern that denotes it and is refused |
| Glob.LiteralMatches | crates/oleafly-core/src/manifest.rs:379-408 | a pattern without wildcards accepts exactly its case variants |
| Text.FoldExact | src-tauri/src/checkpoint_publication.rs:464-465 | folding identifies exactly the texts that differ only in the case of ASCII letters |
| CheckpointPolicy.CheckpointPatternMatches | crates/oleafly-core/src/manifest.rs:278-296 | the loops over segments compute the pattern test |
| CheckpointPolicy.PatternMatchesSegments | crates/oleafly-core/src/manifest.rs:278-296 | segments match in order, and only a literal pattern may leave components over |
| CheckpointPolicy.CheckIgnored | crates/oleafly-core/src/manifest.rs:271-275 | true exactly when some ignore pattern matches |
| CheckpointPolicy.ValidExact | crates/oleafly-core/src/manifest.rs:298-377 | a policy is valid exactly when its patterns are printable, normalised and of portable components (not empty, no dot or space at the end, no Windows device, nothing that matches .git or .oleafly), and no ignore pattern names project.json |
| CheckpointPolicy.ManifestNeverIgnored | crates/oleafly-core/src/manifest.rs:298-366 | a valid policy never ignores project.json |
| CheckpointPolicy.ProtectedOnlyBeneath | crates/oleafly-core/src/manifest.rs:352-359 | a valid pattern accepts a path through .git or .oleafly, in any letter case, only when it is literal and the component lies beneath all of its segments |
| CheckpointPolicy.ProtectedNeverIncluded | crates/oleafly-core/src/manifest.rs:352-359 | a valid policy never includes anything under .git or .oleafly at the project root, in any letter case |
| IncludeWalk.IncludePolicyFile | src-tauri/src/checkpoint_publication.rs:503-520 | includes the file, or reports an unsafe path or a file both included and ignored, exactly then |
| IncludeWalk.CollectLiteralSubtree | src-tauri/src/checkpoint_publication.rs:522-582 | the stack walk adds exactly the unprotected regular files beneath, counts every entry, and fails only for an obstacle that is there |
| IncludeWalk.CollectPolicyPattern | src-tauri/src/checkpoint_publication.rs:585-667 | the recursion adds exactly the files that the remaining segments select, with the entries counted |
| IncludeWalk.HitSegments | src-tauri/src/checkpoint_publication.rs:585-667 | what the recursion selects: open files whose components match segment by segment, with more below only for a literal pattern |
| IncludeWalk.HitIsPatternMatch | src-tauri/src/checkpoint_publication.rs:669-694 | among files with no protected component, the walk selects what the policy's own pattern test accepts |
| IncludeWalk.CollectPattern | src-tauri/src/checkpoint_publication.rs:679-692 | one pattern from the project root: exactly the files it matches, or an obstacle, the entry limit or a cancellation |
| IncludeWalk.CollectAlwaysIncludedFiles | src-tauri/src/checkpoint_publication.rs:669-694 | success means exactly the always-included regular files; failure means an obstacle, the entry limit or a cancellation |
| IncludeWalk.ListingOrderIrrelevant | src-tauri/src/checkpoint_publication.rs:600-612 | the result does not depend on the order of directory listings, at any level |
| IncludeExact.SelectedExact | src-tauri/src/checkpoint_publication.rs:585-694 | selected are exactly the regular files that some pattern matches and on whose path no component is .git, .oleafly or node_modules, in any letter case and at any depth |
| IncludeExact.RefusedExact | src-tauri/src/checkpoint_publication.rs:522-667 | a pattern is refused exactly for what it meets in the directories that it enters: too deep, a name that is not Unicode or not printable, a link, or a file both included and ignored |
| IncludeExact.CostExact | src-tauri/src/checkpoint_publication.rs:493-501 | the entries counted for a pattern are exactly those of the directories that it enters, each once |
| IncludeExact.ExpansionExact | src-tauri/src/checkpoint_publication.rs:669-694 | an expansion is refused exactly for what one of its patterns is refused for, and counts the entries of all of them together |
| FileTree.ReadFile | src-tauri/src/checkpoint_publication.rs:719-735 | finds the content of the regular file at a path, and nothing only when there is none |
| CaptureCheck.BuildCaptureInputs | src-tauri/src/checkpoint_publication.rs:696-752 | the inputs with their basis, hash and stored flag; without a cancellation it fails only for a stated reason |
| CaptureCheck.BuildsExactly | src-tauri/src/checkpoint_publication.rs:696-752 | nothing that can be built is refused: a path is refused exactly when it is listed and not portable, or required and not a regular file |
| CaptureCheck.InputsExact | src-tauri/src/checkpoint_publication.rs:715-751 | the inputs are project.json, the dependencies and the selected files; the main document and project.json are stored whatever the policy says, another dependency exactly when no ignore pattern matches it |
| CaptureCheck.WorktreeFileMatches | src-tauri/src/checkpoint_publication.rs:2496-2521 | true exactly when a regular file with the recorded length and hash is there |
| CaptureCheck.ExplicitInputsMatch | src-tauri/src/checkpoint_publication.rs:2531-2549 | the policy selects exactly the recorded paths that the replay did not read |
| CaptureCheck.RecordedFileMatches | src-tauri/src/checkpoint_publication.rs:2550-2565 | the recorded flag is the one the policy gives now, and the file is as recorded |
| CaptureCheck.ManifestMatchesWorktree | src-tauri/src/checkpoint_publication.rs:2523-2567 | without a cancellation it is true exactly when the worktree is unchanged in the sense of the next rows |
| CaptureCheck.UnchangedStored | src-tauri/src/checkpoint_publication.rs:2554-2562 | in an unchanged worktree the main document and project.json are recorded as stored, and another replayed file exactly when no ignore pattern matches it now |
| CaptureCheck.UnchangedBuilds | src-tauri/src/checkpoint_publication.rs:2523-2567 | if unchanged, the slow builder yields exactly the recorded paths and flags, and sealing yields the recorded files |
| CaptureCheck.BuildsUnchanged | src-tauri/src/checkpoint_publication.rs:696-752 | if building and sealing give the recorded files, the fast test says unchanged |
| CaptureCheck.FastCheckExact | src-tauri/src/checkpoint_publication.rs:2523-2567 | the fast test says unchanged if and only if building and sealing again would reproduce the manifest |
| CaptureCheck.UnchangedKeepsContents | src-tauri/src/checkpoint_publication.rs:2496-2567 | at every recorded path an unchanged worktree holds a file as long as the sealed one and with the same digest, so the same bytes unless the digest collides on these two |
| CacheTree.CollectCacheFiles | src-tauri/src/checkpoint_publication.rs:1328-1402 | the stack walk succeeds if and only if nothing obstructs it and the limits hold, and then has each file once |
| CacheCensus.ObstructedExact | src-tauri/src/checkpoint_publication.rs:1328-1402 | the walk is obstructed exactly by a directory more than 16 deep, a file longer than 256 MiB or without a printable path, or anything that is neither file nor directory, wherever in the tree it is |
| CacheDescriptor.WholeRecords | src-tauri/src/checkpoint_publication.rs:1379-1398 | the records found are exactly those of the files in the tree |
| CacheDescriptor.WholeDistinct | src-tauri/src/checkpoint_publication.rs:1379-1398 | in an unobstructed tree each relative path is recorded once |
| CacheDescriptor.LessExact | src-tauri/src/checkpoint_publication.rs:1296 | paths are compared byte by byte, and a path comes before what goes on from it |
| CacheCensus.PortableExact | src-tauri/src/checkpoint_publication.rs:1261-1285 | the recorded path of a file is its components with one slash between any two |
| CacheCensus.FingerprintExact | src-tauri/src/checkpoint_publication.rs:1287-1402 | a tree has a fingerprint if and only if nothing obstructs the walk, it has 1 file or more, at most 100000 entries and 1 GiB, and 26 + the sum over its files of 48 + path length is at most 32 MiB; the counts are those of the tree |
| CacheCensus.FingerprintHash | src-tauri/src/checkpoint_publication.rs:1296-1326 | the hash digests the records of exactly the files of the tree, in ascending order of their paths |
| CacheDescriptor.EncodeDetermined | src-tauri/src/checkpoint_publication.rs:1287-1326 | two descriptors are equal if and only if the sorted records are |
| CacheDescriptor.HashCacheEntries | src-tauri/src/checkpoint_publication.rs:1287-1326 | within the limits, exactly then, the digest of the canonical encoding with the counts; what the limits mean for a tree is `CacheCensus.FingerprintExact` |
| CacheDescriptor.DescriptorCanonical | src-tauri/src/checkpoint_publication.rs:1287-1402 | the descriptor does not depend on the order in which the walk found the files |
| CacheDescriptor.DescriptorExact | src-tauri/src/checkpoint_publication.rs:1287-1402 | two trees give the same descriptor if and only if they hold the same paths, lengths and content hashes |
| CacheDescriptor.ListingOrderIrrelevant | src-tauri/src/checkpoint_publication.rs:1328-1402 | neither success nor the fingerprint depends on the order of directory listings, at any level |
| CacheDescriptor.HashCacheTree | src-tauri/src/checkpoint_publication.rs:1328-1402 | the fingerprint of exactly the tree's records, or a limit or an obstacle that is there |
| CacheDescriptor.CompareTrees | src-tauri/src/checkpoint_publication.rs:1328-1402 | equal records give equal fingerprints, and equal fingerprints mean equal records unless the digest collides on the two trees' own descriptors |
| CacheKey.DecodeTectonicCacheKey | src-tauri/src/checkpoint_publication.rs:1091-1111 | the index scan ends on every input and computes the decoding |
| CacheKey.DecodeAccepts | src-tauri/src/checkpoint_publication.rs:1091-1111 | a name decodes to a key if and only if it spells the key byte by byte, itself or by its number between commas, and the key is valid text |
| CacheKey.RoundTrip | src-tauri/src/checkpoint_publication.rs:4225-4235 | decoding inverts encoding for every key, commas and bytes outside ASCII included |
| CacheKey.EncodedIsSafe | src-tauri/src/checkpoint_publication.rs:1637-1643 | an encoded key is a safe file name, except for the empty key, `.` and `..` |
| CacheKey.SafeExact | src-tauri/src/checkpoint_publication.rs:1637-1643 | a safe name has no separator and no control character and is not a dotted directory |
| CacheSeed.OrdinaryBundleMarker | src-tauri/src/checkpoint_publication.rs:1645-1694 | the marker of the one safely named record that decodes to the locator, among at most 1024 records, if it holds a content identity |
| CacheSeed.ChosenExact | src-tauri/src/checkpoint_publication.rs:1645-1700 | a marker is chosen exactly when its record is there, safely named, decodes to the locator and holds an identity, and no second record decodes to it |
| CacheSeed.IdentityExact | src-tauri/src/checkpoint_publication.rs:1678-1690 | a content identity is 64 lower-case hexadecimal digits, alone but for one newline behind them |
| CacheSeed.Probe.SeedOne | src-tauri/src/checkpoint_publication.rs:1542-1606 | carries out the link, or the staged copy and the rename, step by step as the run function says, for every answer of the file system |
| CacheSeed.Probe.SeedDirectory | src-tauri/src/checkpoint_publication.rs:1696-1791 | the loop over a listing carries out the run function's recursion, and stops where it stops |
| CacheSeed.SeedProbeTectonicCacheFrom | src-tauri/src/checkpoint_publication.rs:1793-1840 | passes through exactly the states, and comes to the outcome, that the two caches and the file system's answers determine |
| SeedTrace.EveryStateLawful | src-tauri/src/checkpoint_publication.rs:1793-1840 | in every state of every run, failing ones too: a file that was there is as it was, or was not seen and is now the one offered; only files of the chosen bundle are new; a new marker comes after everything else that could be seen |
| SeedTrace.SurvivalExact | src-tauri/src/checkpoint_publication.rs:1557-1605 | all runs leave every existing file as it was if and only if, of each that differs from the one offered, the inspection or the attempt to link tells that it is there |
| SeedTrace.UnseenIsReplaced | src-tauri/src/checkpoint_publication.rs:1557-1596 | for every cache: an existing file that is offered and not seen is replaced when nothing else fails |
| SeedTrace.MarkerReplaced | src-tauri/src/checkpoint_publication.rs:1557-1596 | a run that succeeds and replaces an existing marker |
| SeedTrace.SuccessComplete | src-tauri/src/checkpoint_publication.rs:1816-1839 | after a success the marker and everything that could be seen is there, the added files are within the limit, and a staged copy is left only beside a file that was not seen |
| SeedTrace.OffersExact | src-tauri/src/checkpoint_publication.rs:1696-1840 | offered are the marker, the index, the safely named regular files of the bundle, and those formats whose name starts with the bundle and a hyphen |
| SeedTrace.SuccessNeeds | src-tauri/src/checkpoint_publication.rs:1543-1840 | no run succeeds past an operation that failed: every listing and entry was read, every file was inspected and within its limit, and was seen, linked or copied whole |
| SeedTrace.AllSeeded | src-tauri/src/checkpoint_publication.rs:1816-1839 | after a success everything that the ordinary cache offers is there, but perhaps an index that could not be inspected |
| SeedTrace.IndexExact | src-tauri/src/checkpoint_publication.rs:1818-1827 | after a success the index is there if and only if it could be inspected or was there before |
| SeedTrace.UnreadableIndexSkipped | src-tauri/src/checkpoint_publication.rs:1818-1827 | a run that succeeds with the marker and without the source's index |
| SeedTrace.SeedingSucceeds | src-tauri/src/checkpoint_publication.rs:1793-1840 | when nothing fails but links and the inspection of targets and of the index, whatever is within the limits is seeded, by copies where links are refused |
| SeedBudget.GrowthBounded | src-tauri/src/checkpoint_publication.rs:1604-1635 | a run that succeeds makes the cache grow by at most 1 GiB, staged copies left out |
| SeedTrace.NothingToSeed | src-tauri/src/checkpoint_publication.rs:1798-1816 | without an ordinary cache of its own or a bundle for the locator nothing changes, and that is a success exactly when the cache is missing or the same |
| PublicationLane.CompileCancel.CommitVisibility | src-tauri/src/state.rs:114-130 | a stop lands entirely before or entirely after a commit, and a commit that fails leaves the cutoff open |
| PublicationLane.PublicationRegistry.AdmitPublication | src-tauri/src/checkpoint_publication.rs:2837-2851 | runs at once with a handle of its own, or stops the running publication and becomes its only successor |
| PublicationLane.PublicationRegistry.FinishPublication | src-tauri/src/checkpoint_publication.rs:2853-2876 | the successor starts with a new handle, or the lane goes |
| PublicationLane.PublicationRegistry.RequestPublicationCancel | src-tauri/src/checkpoint_publication.rs:2886-2896 | drops the successor and stops the running publication |
| LaneTrace.LaneIffWorker | src-tauri/src/checkpoint_publication.rs:2837-2876 | over every run, a project has a lane if and only if exactly one worker owns its running publication |
| LaneTrace.StartsInOrder | src-tauri/src/checkpoint_publication.rs:2951-3006 | the requests of a project start in admission order, each at most once |
| LaneTrace.EveryRequestHasOneFate | src-tauri/src/checkpoint_publication.rs:2837-2896 | every admitted request waits, or was started, replaced or dropped, exactly one of these, once |
| LaneTrace.DiscardedForAReason | src-tauri/src/checkpoint_publication.rs:2842-2846 | a request that never starts gave way to a later one or to a cancel of its project |
| LaneTrace.CancelBarrier | src-tauri/src/checkpoint_publication.rs:2886-2904 | nothing admitted before a cancel becomes in-flight or visible after it |
| LaneTrace.PublishedIsNewest | src-tauri/src/checkpoint_publication.rs:2827-2851 | a checkpoint becomes visible only for the newest admitted request of its project |
| LaneTrace.SuccessorMeansStop | src-tauri/src/checkpoint_publication.rs:2842-2846 | while a successor waits the running publication has been asked to stop or is already visible |
| LaneTrace.StopsAlwaysReach | src-tauri/src/checkpoint_publication.rs:2827-2835 | whenever a running publication has been asked to stop, its process was signalled or refused |
| LaneProgress.CommitExact | src-tauri/src/state.rs:114-130 | over every run, a commit is refused exactly when a later admission or a cancel of the project has told the publication to stop; otherwise the checkpoint becomes visible exactly when the commit succeeds |
| LaneProgress.SpawnExact | src-tauri/src/state.rs:72-79 | over every run, a process that starts is refused exactly when its publication was told to stop or is visible |
| LaneProgress.SignalExact | src-tauri/src/state.rs:61-68 | over every run, a stop names exactly the process attached to the publication, and none once the checkpoint is visible |
| LaneProgress.StopSeen | src-tauri/src/state.rs:88-108 | over every run, polls and inner scopes see a stop exactly when the publication was told to stop and is not visible; it can finish exactly when all inner scopes are closed |
| LaneProgress.CancelAnswers | src-tauri/src/checkpoint_publication.rs:2886-2896 | a cancel finds a publication exactly when one is running for the project |
| LaneProgress.IdlePublishes | src-tauri/src/checkpoint_publication.rs:2837-2851 | over every run, what is admitted to a project without a publication starts at once, and its commit makes it visible |
| LaneProgress.OverIsIdle | src-tauri/src/checkpoint_publication.rs:2853-2876 | over every run, the stop handle of a publication that is over has been detached and cleared |
| LaneProgress.ScopesClear | src-tauri/src/state.rs:52-107 | a first scope starts from a cleared stop request, and the last one that closes clears it |
| ArchiveFormat.HeaderRoundTrip | src-tauri/src/checkpoint_archive.rs:313-423 | decoding inverts encoding and passes every limit |
| ArchiveFormat.HeaderExact | src-tauri/src/checkpoint_archive.rs:353-423 | in both versions, a header decodes to given settings if and only if it spells them byte by byte and they are within the limits |
| ArchiveFormat.HeaderErrors | src-tauri/src/checkpoint_archive.rs:353-413 | which headers are no archive, and which are of a version that is not supported |
| ArchiveFormat.NonceInjective | src-tauri/src/checkpoint_archive.rs:503-508 | a nonce determines its prefix and its 64-bit counter (the construction of section 8.2.1 of NIST SP 800-38D) |
| ArchiveFormat.AadInjective | src-tauri/src/checkpoint_archive.rs:494-501 | the associated data determines header, counter, kind and length |
| ArchiveFormat.FullChunks | src-tauri/src/checkpoint_archive.rs:151-164 | cutting whenever a frame is full gives the frames of the whole plaintext |
| ArchiveFormat.ChunksFlat | src-tauri/src/checkpoint_archive.rs:112-149 | the frames of a plaintext concatenate to it |
| ArchiveFormat.ChunksShape | src-tauri/src/checkpoint_archive.rs:112-149 | there are as many frames as the size calls for, none empty and none too long |
| ArchiveFormat.EnvelopeSize | src-tauri/src/checkpoint_archive.rs:465-492 | the size is 56 + n + 21 for each frame, the end marker included |
| ArchiveLayout.FrameAt | src-tauri/src/checkpoint_archive.rs:465-508 | where each frame stands in the archive, and that it is its kind, the length of its ciphertext and its part of the plaintext, sealed under prefix and counter and bound to header, counter, kind and length, byte by byte |
| ArchiveFormat.NoncesDistinct | src-tauri/src/checkpoint_archive.rs:503-508 | no two frames of an archive share a nonce |
| ArchiveWriter.ArchiveEncryptWriter.WriteEncryptedFrame | src-tauri/src/checkpoint_archive.rs:465-492 | seals, then writes kind, length and ciphertext; a failing sink may have taken a part |
| ArchiveWriter.ArchiveEncryptWriter.FlushDataFrame | src-tauri/src/checkpoint_archive.rs:112-131 | success advances the counter by one; a failure keeps frame and counter, so a retry seals the same frame again |
| ArchiveWriter.ArchiveEncryptWriter.Write | src-tauri/src/checkpoint_archive.rs:151-164 | takes every byte, keeps the nonce discipline whatever fails, and reports exhaustion only past the last counter |
| ArchiveWriter.ArchiveEncryptWriter.Finish | src-tauri/src/checkpoint_archive.rs:133-149 | without failures the sink then holds the one envelope of everything written; nonces stay unique until exhaustion |
| ArchiveWriter.Encrypt | src-tauri/src/checkpoint_archive.rs:112-164 | any split into writes gives the same archive, which depends on the concatenation only, exactly when the counter suffices |
| ArchiveWriter.ExhaustedReuse | src-tauri/src/checkpoint_archive.rs:122-129 | a caller that goes on after the counter has run out makes two different frames share a nonce |
| ArchiveReader.OpenedIsNext | src-tauri/src/checkpoint_archive.rs:205-270 | what opens under the reader's counter and header is the archive's frame with that counter |
| ArchiveReader.ArchiveDecryptReader.ReadFrame | src-tauri/src/checkpoint_archive.rs:205-270 | success takes exactly the next frame of the archive; an error exposes nothing |
| ArchiveReader.ArchiveDecryptReader.Read | src-tauri/src/checkpoint_archive.rs:272-288 | returns authenticated bytes in order, and nothing only at the authenticated end |
| ArchiveReader.ArchiveDecryptReader.ExposesOnlyPrefix | src-tauri/src/checkpoint_archive.rs:272-288 | whatever the input and however often failed reads are retried, only a prefix of the plaintext comes out |
| ArchiveReader.ArchiveDecryptReader.EndMeansArchive | src-tauri/src/checkpoint_archive.rs:205-270 | the end of the stream without an error means that the input was the archive, byte for byte |
| ArchiveReader.ReadHeader | src-tauri/src/checkpoint_archive.rs:328-351 | consumes exactly the header that the version calls for, 48 or 56 bytes |
| ArchiveReader.OpenReader | src-tauri/src/checkpoint_archive.rs:187-203 | a reader starts valid on any input, and on an archive of either version, with any settings that are allowed, it does start with its password |
| ArchiveReader.Decrypt | src-tauri/src/checkpoint_archive.rs:205-288 | for an archive of either version, any settings that are allowed and any cut into frames, and with any buffer sizes: succeeds only on the archive byte for byte, and then returns the plaintext; on the archive it does succeed |
| ArchiveReader.RoundTrip | src-tauri/src/checkpoint_archive.rs:112-288 | for any split into writes and any buffer sizes what was written comes back |
| ExecApprovals.AgentExecState.AuthorizeAt | src-tauri/src/agent_exec.rs:134-170 | refuses cancelled runs; else purges, evicts the oldest and records the token for 30 seconds |
| ExecApprovals.AgentExecState.BeginExecutionAt | src-tauri/src/agent_exec.rs:182-226 | takes the token whatever follows, and opens an execution only for its own project, command and run |
| ExecApprovals.AgentExecState.CancelRun | src-tauri/src/agent_exec.rs:307-328 | removes the run's approvals and executions, remembers the run, and names the processes to stop |
| ExecApprovals.AgentExecState.CancelAll | src-tauri/src/agent_exec.rs:330-356 | empties the registry and remembers every run it knew |
| ExecApprovals.ExecLease.Activate | src-tauri/src/agent_exec.rs:230-256 | records the process only while the execution is open and its run is not remembered as cancelled |
| ExecApprovals.ExecLease.Unregister | src-tauri/src/agent_exec.rs:258-278 | removes the execution if it is still open and leaves no empty table |
| ExecApprovals.ExecLease.Complete | src-tauri/src/agent_exec.rs:280-289 | the execution leaves and the lease will not signal |
| ExecApprovals.ExecLease.Drop | src-tauri/src/agent_exec.rs:292-305 | an execution that did not complete leaves, and its process, if any, is signalled |
| ExecTrace.QueueAlwaysTidy | src-tauri/src/agent_exec.rs:49-61 | over every run the queue is duplicate-free and holds every approval, at most one token dangles, the limits hold and no table is empty |
| ExecProgress.EvictsAtMostOne | src-tauri/src/agent_exec.rs:152-158 | over every run, eviction takes nothing from fewer than 256 approvals and one from 256, so the fallback that clears all of them is never reached |
| ExecTrace.BeginHasOneMint | src-tauri/src/agent_exec.rs:134-226 | a successful begin has exactly one mint of its token, earlier, for the same project, command and run, less than 30 seconds old, with no cancel and no other begin of it in between |
| ExecTrace.UsedTokenIsSpent | src-tauri/src/agent_exec.rs:192-204 | a token used in any begin never opens an execution again |
| ExecTrace.MismatchIsFinal | src-tauri/src/agent_exec.rs:194-204 | over every run, a token whose begin named the wrong project, command or run never opens an execution afterwards |
| ExecTrace.CancelSurvives | src-tauri/src/agent_exec.rs:307-366 | over every run, a newly cancelled run is remembered until more than 255 others have been newly cancelled |
| ExecProgress.ApprovalSurvives | src-tauri/src/agent_exec.rs:134-226 | over every run, a mint for a run that is not remembered as cancelled is granted, and the approval can be used for 30 seconds, until its token is used, its run or every run is cancelled, or more than 255 others are asked for |
| ExecProgress.MintExact | src-tauri/src/agent_exec.rs:134-170 | over every run, a mint is refused exactly for a run remembered as cancelled; a granted one forgets what has expired and, only when 256 others are left, exactly the oldest |
| ExecProgress.CancelAllRemembers | src-tauri/src/agent_exec.rs:330-366 | over every run, a cancel of everything remembers the runs with an approval or an open execution, all of them or the last 256 |
| ExecTrace.LeavesOnceSignalsOnce | src-tauri/src/agent_exec.rs:208-356 | every execution leaves exactly once; its process is signalled exactly once if it was activated and left without completing, and never otherwise |
| ExecTrace.NoStartAfterCancel | src-tauri/src/agent_exec.rs:229-256 | after a cancel no execution opened earlier for that run is activated, even once the run is forgotten |
| ExecProgress.StartExact | src-tauri/src/agent_exec.rs:229-256 | over every run, an execution neither completed nor dropped starts its process exactly when neither its run nor every run was cancelled since it was opened |
| ExecProgress.LeaveExact | src-tauri/src/agent_exec.rs:258-305 | over every run, a completed or dropped execution leaves exactly when no cancel has taken it since it was opened, and a drop signals its process exactly when it also was started |
| Utf8.CutValid | src-tauri/src/chunked.rs:66-70 | cutting valid text (section 4 of RFC 3629) at a character boundary leaves two valid texts |
| Utf8.NearBoundary | src-tauri/src/chunked.rs:66-70 | a boundary lies at most three bytes before any place in valid text |
| Utf8Exact.ValidExact | src-tauri/src/chunked.rs:56-70 | valid are exactly the encodings of Unicode scalar values (section 3 of RFC 3629) |
| Utf8Exact.ControlExact | src-tauri/src/checkpoint_publication.rs:1270 | in valid text the test on bytes finds exactly the control characters, C0, delete and C1 |
| Chunked.CutProgress | src-tauri/src/chunked.rs:64-72 | every cut makes progress and loses at most three bytes of a full chunk |
| Chunked.PiecesShape | src-tauri/src/chunked.rs:56-84 | pieces are non-empty valid text, all but the last nearly full, and concatenate to the text |
| Chunked.TransferNumbered | src-tauri/src/chunked.rs:56-84 | the messages are numbered consecutively from 0 |
| Chunked.ChunkText | src-tauri/src/chunked.rs:56-86 | the reference splitting ends and gives the transfer of the text |
| Chunked.SendChunkedText | src-tauri/src/chunked.rs:122-173 | under any acknowledgements at most 4 chunks are ever unacknowledged, what is sent is a prefix of the reference messages, success means exactly all of them, each failure names its cause, and the run is the sending function of text, acknowledgements and refusals |
| Chunked.NeverStuck | src-tauri/src/chunked.rs:150-160 | with a receiver that acknowledges each chunk, whenever the sender waits something is under way, and some move is possible until the end |
| Chunked.SenderFollowsPlay | src-tauri/src/chunked.rs:122-173 | the composed sender is the sender of `SendChunkedText`: with the acknowledgements it takes in any play it sends the same messages, waits exactly where the play has it blocked, and delivers exactly when the play is finished |
| Chunked.MovesEnd | src-tauri/src/chunked.rs:137-164 | every run of sender and receiver ends |
| Chunked.DeliveredInOrder | src-tauri/src/chunked.rs:137-164 | what the receiver has taken is the beginning of the text, and in the end the text |
| RunResources.AgentState.RegisterRunResources | src-tauri/src/agent.rs:367-416 | each table holds the new resource for the request; a replaced token is cancelled and a replaced manager interrupted |
| RunResources.AgentState.DropGuard | src-tauri/src/agent.rs:434-452 | removes the generation's own entries and halts its token and manager |
| RunResources.AgentState.CancelRun | src-tauri/src/agent.rs:324-348 | token, steer and manager of the request go and are halted; project and tools go only for the active generation |
| RunResources.AgentState.CancelAll | src-tauri/src/agent.rs:285-312 | the tables end empty, with every token cancelled and every manager interrupted |
| ResourceTrace.EveryTokenAccounted | src-tauri/src/agent.rs:324-452 | in every interleaving a registered token is exactly one of current for its request, cancelled, or held by a thread that will cancel it; likewise a manager |
| ResourceTrace.EveryEntryGuarded | src-tauri/src/agent.rs:367-452 | every entry of the five tables belongs to a run whose guard has yet to remove it |
| ResourceTrace.AllGone | src-tauri/src/agent.rs:434-452 | when all guards are gone the five tables are empty and everything registered has been halted |
| ResourceTrace.RunRegisters | src-tauri/src/agent.rs:367-416 | over every run, a request that begins and is not interrupted ends up with its own resource in each of the five tables |
| ResourceTrace.DropTouchesOwn | src-tauri/src/agent.rs:434-452 | dropping a guard removes its own generation's entries and touches no other entry of any table |
| ResourceTrace.CancelReaches | src-tauri/src/agent.rs:285-348 | a cancel reaches every token and manager registered for the request before it, for good |
| ResourceTrace.CancelAllIsSteps | src-tauri/src/agent.rs:285-312 | a cancel of everything that nothing interrupts empties the tables and takes every token and manager to halt |
| ResourceTrace.StaysCurrent | src-tauri/src/agent.rs:324-416 | a live run keeps its five entries, and its token and manager are left alone, until its own end, another run of its request or a cancel |
| PendingTools.ToolReplyIdInjective | src-tauri/src/agent.rs:1095-1097 | replies to different calls have different names, whatever the provider calls them |
| PendingTools.KeysExact | src-tauri/src/agent.rs:1091-1097 | two calls share a key if and only if they are the same call, or the name of one request continues the other call's key, whatever the names hold |
| PendingTools.PrefixExact | src-tauri/src/agent.rs:1110-1118 | the prefix test finds the request's own keys, and otherwise only keys in which one name goes on after a separator |
| PendingTools.Registry.DropPendingTools | src-tauri/src/agent.rs:1110-1118 | exactly the calls with the prefix, and the generation if one is given, go |
| PendingTools.EndDropsOwn | src-tauri/src/agent.rs:1110-1118 | over every run, ending a run drops exactly the calls of its generation, whatever the requests are called |
| PendingTools.LeavesExactly | src-tauri/src/agent.rs:1069-1108 | a reply takes out what its key names, a call that is given up only its own entry |
| PendingTools.EndIsFinal | src-tauri/src/agent/registry.rs:135-139 | once a run has ended and asks nothing more, none of its calls is ever pending again |
| PendingTools.AskedWaits | src-tauri/src/agent.rs:945-972 | over every run, a call of a run that has begun waits under its own key |
| PendingTools.CallWaits | src-tauri/src/agent.rs:945-972 | a call waits until its reply, its own end, its run's end, a cancel of all or another call under the same key |
| CookieDomain.NormalizeExact | src-tauri/src/browser_cookie_import.rs:428-447 | a filter is accepted if and only if it is a host name, up to white space, letter case and one dot at the end |
| CookieDomain.NormalizeStable | src-tauri/src/browser_cookie_import.rs:428-447 | normalising again changes nothing |
| CookieDomain.NoFilter | src-tauri/src/browser_cookie_import.rs:428-431 | there is no filter exactly when none is given or it is white space only, and then every cookie is selected |
| CookieDomain.TrimExact | src-tauri/src/browser_cookie_import.rs:429 | trimming takes the white space at both ends and nothing else |
| CookieDomain.HostnameExact | src-tauri/src/browser_cookie_import.rs:1366-1379 | a host name has at most 253 characters, and 1 to 63 letters, digits and inner hyphens in every stretch without a dot |
| CookieDomain.DomainMatchesLabels | src-tauri/src/browser_cookie_import.rs:1328-1339 | for every accepted filter the string test means: the same labels, or a dotted cookie domain whose labels are a proper suffix of the filter's |
| CookieDomain.SqlAdmits | src-tauri/src/browser_cookie_import.rs:32-33 | every row that the string test accepts meets the domain clause |
| CookieDomain.SqlExact | src-tauri/src/browser_cookie_import.rs:32-33 | for a valid cookie domain the clause and the string test agree |
| CookieDomain.SqlAdmitsMore | src-tauri/src/browser_cookie_import.rs:32-33 | for other rows the clause may admit more, an underscore standing for any character |
| CookieDomain.UniqueRuntimeCookies | src-tauri/src/browser_cookie_import.rs:586-600 | keeps the first cookie of every identity, in the order read |
| CookieDomain.IdentityExact | src-tauri/src/browser_cookie_import.rs:590-594 | two cookies are the same when name and path are equal and the domains differ at most in letter case |

## Left out

- The cipher, the key derivation and the content hash: sealing is any function that adds 16 bytes, opening succeeds exactly on what was
  sealed under the key for the one archive, and digests are functions; where a result needs that they do not collide it says so.
- IncludeWalk.CollectAlwaysIncludedFiles: reading a directory does not fail and a project does not change while it is walked.
- CheckpointPolicy.ValidExact: a policy that could not be read from the project file, or with an unknown mode, is refused before its
  patterns are looked at; these two cases are not modelled.
- CaptureCheck.BuildCaptureInputs: returns a map from paths, not a list in path order; a required input that is a symbolic link is refused
  at once, where the program refuses it when it seals.
- CaptureCheck.FastCheckExact: sealing is the relation between inputs, worktree and recorded files; the store behind it is not modelled.
- CacheDescriptor.CompareTrees: that equal fingerprints mean equal trees holds unless the digest collides on the two descriptors;
  no statement about 32-byte digests can be without this.
- CacheTree.CollectCacheFiles: files do not change between the size test and the hash; the program checks this and refuses.
- CacheSeed.SeedProbeTectonicCacheFrom: one process at a time seeds the cache, so a file that appears between two of its operations is not
  modelled, nor that a hard link shares later changes; an operation on a file gives the same answer each time it is made in a run.
- SeedTrace.EveryStateLawful: the names drawn for staged copies are not in use.
- PublicationLane.PublicationRegistry.AdmitPublication: a stop handle is a name in a table instead of a shared reference, and the process to be
  signalled is returned instead of signalled.
- LaneTrace: the publication itself is a worker that opens and closes inner scopes, attaches and releases processes, commits
  until the checkpoint is visible and finishes; events, logs, the start delay and the bounded wait of
  `cancel_project_publications_and_wait` are not modelled.
- ArchiveReader.ArchiveDecryptReader.Read: the source is a byte string with failing reads; partial reads of a frame are one step.
- ExecApprovals: external owners, poisoned locks and the direct termination of a process on errors and timeouts are not modelled; tokens are
  drawn fresh; the clock is a parameter and need not be monotonic.
- Chunked.SendChunkedText: the table of acknowledgement channels and the 30-second timeout; a wait that ends is the end of the acknowledgements.
- RunResources.AgentState.CancelRun: the abort of the request and the list of early cancellations are not modelled; generations are unbounded.
- PendingTools: the waiting senders are not modelled; generations are unbounded.
- CookieDomain: the other SQL clauses, cookie values, decryption and profiles are not modelled.
- The memo of bundle identities, the compiler report parsers, the approvals, command tickets and tab registries, and the TypeScript sources:
  shaped by file times and external formats, or maps with easy facts only.
