# Verified model of PilotSwarm's stateful cores

This project models the parts of the repository whose correctness spans many steps, callers or functions, and proves
what they promise. Everything is stated for all inputs, all runs or all interleavings. `dafny verify dfyconfig.toml`
checks it.

## What is modelled

- **Snapshot commits** (`SnapshotCommit`, `SnapshotFinality`, `SnapshotStore`). One blob of one epoch
  chain, any number of callers that
  HEAD and then PUT under `If-Match` or `If-None-Match` (sections 13.1.1 and 13.1.2 of RFC 9110). Requests may arrive
  late, twice or never, replies may be lost, callers may give up and start over. `SnapshotCommit` is the state machine
  and what all its runs guarantee; `SnapshotStore` is the commit loop itself, with the writes of others between its
  requests.
- **Package diffs** (`LineDiff`, `Hunks`, `HunkContext`, `DiffText`, `PackageDiff`). The LCS table, the greedy walk, the
  marking and the hunk counters as loops over arrays, which lines the hunks show, an independent patch tool that checks
  every header, the text of a diff with a reader that inverts it, and the comparison of two trees.
- **Canonical tar** (`Ustar`, `TarArchive`, `TarRoundTrip`, `TarLayout`, `TarReading`) byte by byte, writer and strict
  reader, and **semver** (`Semver`, `SemverText`) against the grammar and section 11 of Semantic Versioning 2.0.0.
- **Evidence graph** (`EdgeEvidence`, `EvidenceGraph`, `GraphStore`). `EvidenceGraph` gives the public operations a
  meaning on maps and sets; `GraphStore` is the class whose methods change rows one statement at a time, where nothing
  but the code keeps a triple or an anchor from having two rows.
- **Cypher text** (`CypherText`). Escaping against an openCypher lexer, and the search for a dollar-quote tag.
- **Capability selections** (`CapabilityState`, `CapabilityLaw`, `CapabilityBinding`, `BindingLaw`). Revisions, the window
  of 64 receipts, which requests are accepted and which states can be read back, and who is bound to what.
- **Write limiter, entry cache, import paths** (`RateLimiter`, `EntryCache`, `PathPolicy`, `PathMeaning`), each against a
  plain specification: a full history, a sum over the list, a list of segments.

`HunkContext`, `TarLayout`, `TarReading`, `SemverText`, `CapabilityLaw`, `BindingLaw` and `PathMeaning` say what the
operations mean over inputs and results alone: fields, offsets, texts and the documented limits, none of the functions
the operations are built from.

`Text`, `Numerals` and `Order` hold splitting, positional numerals and JavaScript's string order and sorts.

## What the proofs found

- The documentation of `commitSnapshot` (packages/sdk/src/snapshot-protocol.ts:125-128) says that it succeeds iff the
  stored version equals the base. The code also accepts an absent blob for any base (`UndisturbedCommit`).
- A conflict does not mean that the turn is not committed: it may have landed and been overtaken
  (`OvertakenTurnSeesConflict`). One that names base + 1 is final for a turn with a key, and no other is
  (`ConflictIsFinalIff`). A turn with an empty key is never recognised (`LandedTurnIsRecognised`).
- Two of the five commit attempts can never be used (`ThreeAttemptsSuffice`).
- `nextCapabilityState` does not limit merged names, so it accepts changes whose result `normalizeCapabilityState` refuses
  (`SixtyFifthExportLocksTheState`; the exact condition is in `NextStateIsNormalIff` for one change and in
  `RunsStayReadableIff` for a run).
- A canvas write refused by the canvas limit is still charged to the viewer, and only such a one
  (`RefusedWriteIsChargedIff`; the run is in `SixthViewerPaysForNothing`). The comment on pruning
  (packages/app/web/runtime.js:1696) speaks of every 500th check; the code prunes when more than 2000 keys are held.
- A viewer and a canvas of another session can share one budget: a canvas key is a viewer key exactly when its session id
  has a colon and later a slash (`KeysMixIff`), and only then can a viewer exceed 10 writes (`ViewerLimitIff`).
- Overlapping reads of an uncached package leave the byte counter too high (`TwoMissesDrift`), by exactly the replaced
  bytes (`RunDrifts`, `StaysExactIff`) and for good (`DriftNeverFalls`). The second arrival can evict the very package it
  brings (`JustReadIsEvicted`); exactly when is in `StoredStaysIff`.
- Hunk headers name the next line for an empty range, where POSIX `diff -u` names the previous one
  (`InsertionWithoutContext`), and a file that ends in a newline counts as one empty line more than it has
  (`OneLineFileIsRefused`). Between two POSIX text files a strict POSIX reader understands a diff exactly when no
  change lies within the context of the end and, besides, there is some context or every block of changes both deletes
  and adds (`PosixFileIff`). Leaving line ends aside, the segments that the code itself compares are always patched rightly
  (`DiffTextApplies`).
- Only the new side of a modified file is probed, so a binary file that becomes text is shown, against the remark that
  binaries are never inlined (packages/sdk/src/agent-package-diff.ts:76); exactly when is in `ShowsBinaryIff`.
- Numbers beyond 2^53 are compared as doubles, so different versions can compare equal (`RoundingCollapses`) and an order
  can even turn round (`RoundingInverts`). A version is compared rightly with every other exactly when each of its numbers
  is read as no other number is (`RightIffAlone`), as all below 2^53 are (`BelowExactIsAlone`).
- The strict reader cuts a path at its first NUL only when no line break stands behind it (`TextIsRead`), and reads an
  archive without its end blocks as if they were there (`EndBlocksAreOptional`).
- `mergeGraphNodes` does not guard against merging a node into itself: the node is deleted, and only then is a survivor lost
  (`SurvivorStaysIff`, `SelfMergeLosesTheNode`).

## Model

| member | source | states |
|---|---|---|
| SnapshotProtocol.StepKeeps | packages/sdk/src/blob-store.ts:665-757 | Every enabled HEAD, PUT, lost reply, timeout or failure keeps the chain invariant: the blob is the last write, versions rise by one, conditions quote the version they were made for, attempts are paced, returned outcomes are true. |
| SnapshotProtocol.VersionsAreConsecutive | packages/sdk/src/blob-store.ts:686-702 | In every interleaving the version of a write is its base plus one, and writes i and j differ by exactly j - i versions, so no version is written twice. |
| SnapshotProtocol.HistoryOnlyGrows | packages/sdk/src/blob-store.ts:665-757 | A landed write is never taken back or changed by anything that happens later. |
| SnapshotProtocol.OneWinnerPerBase | packages/sdk/src/blob-store.ts:668-740 | Two calls with the same base version that both report success have the same turn key and report the same content. |
| SnapshotProtocol.SuccessIsDurable | packages/sdk/src/blob-store.ts:673-740 | A reported success names version base + 1, and that version stays in the history under the turn key in every continuation. |
| SnapshotProtocol.OneWritePerTurn | packages/sdk/src/blob-store.ts:686-756 | However often a turn is retried, at most one write from its base version lands. |
| SnapshotProtocol.ThreeAttemptsSuffice | packages/sdk/src/blob-store.ts:594-758 | No caller starts a fourth attempt or waits on a third PUT, and running out of the five attempts is unreachable. |
| SnapshotProtocol.LandedTurnIsRecognised | packages/sdk/src/blob-store.ts:668-682 | A turn that landed is recognised by the next HEAD if and only if its key is not empty and no later version exists; otherwise it is told of a conflict. |
| SnapshotProtocol.ConflictsAreForeign | packages/sdk/src/blob-store.ts:668-682 | Every conflict reported in any run names a version and key that were written, neither the base nor the caller's own commit on top of it. |
| SnapshotProtocol.ConflictAboveBaseIsFinal | packages/sdk/src/blob-store.ts:680-682 | A returned conflict that names base + 1 is final for a turn with a key: none of its writes is in the history of any continuation, not even from a PUT still on the wire. |
| SnapshotProtocol.NearConflictIsConclusive | packages/sdk/src/blob-store.ts:680-682 | When a HEAD finds at most base + 1 and makes a conflict of it, a turn with a key has not landed by then. |
| SnapshotProtocol.OvertakenTurnSeesConflict | packages/sdk/src/blob-store.ts:680-682 | A run in which a turn lands, loses the reply, is overtaken and then gets a conflict: a conflict alone does not mean "not committed". |
| SnapshotProtocol.UndisturbedCommit | packages/sdk/src/blob-store.ts:666-740 | What one undisturbed call does from any reachable state: success iff the blob is absent, at the base, or one above under the same non-empty key; else the found version is reported and nothing changes. |
| SnapshotFinality.ConflictIsFinalIff | packages/sdk/src/blob-store.ts:680-682 | A named version rules a turn out for good, in all runs and continuations, if and only if it is base + 1 and the turn has a key (or is 0 or the base, which are never named). |
| SnapshotFinality.EveryCallIsAccountedFor | packages/sdk/src/blob-store.ts:638-758 | In every run the failures returned are the breakdowns of callers, one for one, so a refused PUT is never one; and the calls begun are those answered and those still under way: none is lost. |
| SnapshotFinality.RefusedPutIsRetried | packages/sdk/src/blob-store.ts:704-757 | In every reachable state a refused PUT sends its caller back to the HEAD with one attempt more, and changes nothing else. |
| SnapshotFinality.LegacyBlobIsVersionZero | packages/sdk/src/blob-store.ts:601-640 | A stored blob without a version is committed to from base 0 alone; any other base is told of a conflict at version 0 without a key. |
| SnapshotStore.BlobService.Upload | packages/sdk/src/blob-store.ts:692-702 | A conditional PUT changes content and metadata together with a fresh etag, or nothing; a refused If-Match means that a version beyond the base exists. |
| SnapshotStore.SessionBlobStore.SendPut | packages/sdk/src/blob-store.ts:691-756 | Whatever happens to the request, an accepting reply means the write is in the chain, a 412 or 409 means someone else is. |
| SnapshotStore.SessionBlobStore.Attempt | packages/sdk/src/blob-store.ts:666-757 | One turn of the loop under writes of others: it asks for another turn only after a race it really lost. |
| SnapshotStore.SessionBlobStore.CommitSnapshot | packages/sdk/src/blob-store.ts:638-758 | The loop never exhausts its attempts, reports only what is in the chain, fails only for a store failure within three attempts, updates the size cache only for a write of its own, and undisturbed reports exactly what the blob it finds calls for. |
| LineDiff.FillTable | packages/sdk/src/agent-package-diff.ts:101-109 | The backward table holds the LCS length of every pair of suffixes. |
| LineDiff.Walk | packages/sdk/src/agent-package-diff.ts:111-120 | The three loops yield the greedy script. |
| LineDiff.ScriptIsFaithful | packages/sdk/src/agent-package-diff.ts:111-120 | The lines a script does not add spell the old text, those it does not delete the new one, and it keeps as many lines as the table says. |
| LineDiff.UnchangedIffEqual | packages/sdk/src/agent-package-diff.ts:122 | A script changes nothing if and only if the two texts are equal. |
| LineDiff.NoCommonSubsequenceIsLonger | packages/sdk/src/agent-package-diff.ts:104-109 | No common subsequence of two texts is longer than the table cell for them. |
| LineDiff.KeptIsCommon | packages/sdk/src/agent-package-diff.ts:114-120 | The lines any script keeps are a common subsequence of its two texts, and its length follows from how many it keeps. |
| LineDiff.ScriptIsShortest | packages/sdk/src/agent-package-diff.ts:104-120 | No script between the same texts keeps more lines or has fewer operations than the one the walk finds. |
| LineDiff.ScriptComesFirst | packages/sdk/src/agent-package-diff.ts:114-120 | Of all scripts as short as the walk's it is the first: where another parts from it, the walk keeps a line the other does not, or deletes where the other adds. Together with `ScriptIsShortest` no other script is left. |
| Hunks.MarkKept | packages/sdk/src/agent-package-diff.ts:125-129 | The in-place marking sets exactly the lines within the context of a change. |
| Hunks.GroupHunks | packages/sdk/src/agent-package-diff.ts:132-153 | The grouping loop with its four counters yields the hunks of the specification. |
| Hunks.GroupPatches | packages/sdk/src/agent-package-diff.ts:132-153 | Hunks grouped over any marking that covers every change patch the old lines into the new ones, each header agreeing with the position reached on both sides. |
| Hunks.DiffApplies | packages/sdk/src/agent-package-diff.ts:122-154 | Applying a diff to the old lines gives exactly the new lines, for every context; a hunk with a wrong start, count or line would be refused. |
| Hunks.DiffReverts | packages/sdk/src/agent-package-diff.ts:122-154 | The same hunks read backwards turn the new lines into the old ones. |
| Hunks.DiffHunksStandApart | packages/sdk/src/agent-package-diff.ts:132-153 | Hunks never overlap or touch in either text, and there are none if and only if the texts are equal. |
| Hunks.FullIffTwoSided | packages/sdk/src/agent-package-diff.ts:132-151 | For every script and every marking, no header range is empty if and only if each longest run of kept lines has a line of both texts. |
| Hunks.FullIffPosixSafe | packages/sdk/src/agent-package-diff.ts:125-151 | No header range of a diff of two line lists is empty if and only if there is context and neither list is empty, or every block of changes has a line of both. |
| Hunks.PosixReaderIff | packages/sdk/src/agent-package-diff.ts:92-155 | A strict patch tool that reads empty ranges by the POSIX convention, but the split segments as lines, gets the new ones if and only if the diff is safe in that sense; otherwise it refuses the diff. |
| Hunks.PosixLinesIff | packages/sdk/src/agent-package-diff.ts:98-153 | With files whose lines all end in a newline, where the diff has one empty segment more: the POSIX reader gets the new lines if and only if the diff is safe and no hunk reaches the end; otherwise it refuses. |
| Hunks.InsertionWithoutContext | packages/sdk/src/agent-package-diff.ts:141-151 | The input that fails: without context an inserted line has an empty old range that starts at the following line, where POSIX names the preceding one. |
| HunkContext.GroupShowsMarked | packages/sdk/src/agent-package-diff.ts:132-153 | For every script and marking the hunks are parts of the script, in order, a line apart at least, their headers counting both texts up to them, and show exactly the marked lines. |
| HunkContext.HunksShowContext | packages/sdk/src/agent-package-diff.ts:124-153 | The hunks of a diff show a line of the script if and only if some added or deleted line stands at most `context` places from it. |
| DiffText.RenderLines | packages/sdk/src/agent-package-diff.ts:131-153 | The emitted lines are the two file headers followed by header and body of each hunk. |
| DiffText.UnifiedDiff | packages/sdk/src/agent-package-diff.ts:92-155 | The whole function: table, walk, marking, grouping and text together produce the rendered diff. |
| DiffText.HunksRoundTrip | packages/sdk/src/agent-package-diff.ts:144-152 | Reading the rendered hunk lines returns the hunks, starts, counts and bodies. |
| DiffText.DiffIsEmptyIffSame | packages/sdk/src/agent-package-diff.ts:98-122 | The text is empty if and only if old and new text are the same. |
| DiffText.DiffTextApplies | packages/sdk/src/agent-package-diff.ts:92-155 | Parsing the text of a diff and applying it to the old text gives the new text, for every path and context. |
| DiffText.PosixFileIff | packages/sdk/src/agent-package-diff.ts:92-155 | Between two POSIX text files a strict POSIX reader gets the new file if and only if no change lies within the context of the end and, besides, there is some context or every block of changes both deletes and adds; otherwise it refuses the diff. |
| DiffText.OneLineFileIsRefused | packages/sdk/src/agent-package-diff.ts:98-153 | At the default context and any other but 0: the diff of any two different one-line files counts two lines, and a POSIX reader refuses it. |
| DiffText.HeaderLineIs | packages/sdk/src/agent-package-diff.ts:151 | The header line of a hunk, spelled out. |
| DiffText.OneLineChanged | packages/sdk/src/agent-package-diff.ts:92-155 | A whole diff at the default context, letter by letter. |
| PackageDiff.EntriesToMap | packages/sdk/src/agent-package-diff.ts:61-71 | Later entries replace earlier ones of the same cleaned path; directories and empty paths are left out. |
| PackageDiff.ScanForNul | packages/sdk/src/agent-package-diff.ts:79-83 | The probing loop finds a NUL exactly when the first 8 KiB hold one. |
| PackageDiff.PatchFile | packages/sdk/src/agent-package-diff.ts:175-193 | Status, probe, size cap and diff in the code's order give the specified patch. |
| PackageDiff.SortedPaths | packages/sdk/src/agent-package-diff.ts:171 | The union of the paths, each once, in JavaScript's default string order. |
| PackageDiff.DiffPackageTrees | packages/sdk/src/agent-package-diff.ts:164-206 | One right patch for each differing path, in path order, complete up to the cap of 200, which keeps the first ones and counts the rest; `identical` iff the two lists of entries say the same of every file. |
| PackageDiff.PatchIsRight | packages/sdk/src/agent-package-diff.ts:179-193 | A shown patch turns the old file text into the new one and fits the cap; "no textual change" means the decoded texts agree; which side is probed for a NUL, what each note means, and on which side the file is missing. |
| PackageDiff.ShowsBinaryIff | packages/sdk/src/agent-package-diff.ts:180-193 | A shown patch has a binary side if and only if both sides exist, the old one has a NUL in its first 8 KiB, the new one has none, both fit the cap and the decoded texts differ. |
| PackageDiff.BinaryOldSideIsShown | packages/sdk/src/agent-package-diff.ts:180-193 | At that input: a binary file that becomes text is shown. |
| PackageDiff.PatchesMakeTheOtherTree | packages/sdk/src/agent-package-diff.ts:164-206 | Applying all patches of a complete diff, none of them binary or oversized, to the texts of the left tree gives exactly the texts of the right tree: files added, removed and changed. |
| PackageDiff.TreeHolds | packages/sdk/src/agent-package-diff.ts:61-71 | For every list of entries: a path is in the tree if and only if it is not empty, does not end in a slash and some entry is named so after one leading "./" is dropped; its content is that of the last such entry. |
| PackageDiff.SameTreeIff | packages/sdk/src/agent-package-diff.ts:61-71 | Two lists of entries make the same tree if and only if they say the same of every file. |
| Order.LessIsCodeUnitOrder | packages/sdk/src/agent-package-diff.ts:171 | The order on characters that the sorts use is the order of UTF-16 code units. |
| Order.UnitsSpell | packages/sdk/src/agent-package-diff.ts:171 | A character beyond U+FFFF is a high and a low surrogate that spell it. |
| Order.LengthCounts | packages/sdk/src/capability-catalog.ts:36-44 | A character counts for one unit of length, or for two beyond U+FFFF. |
| Ustar.SplitUstarName | packages/sdk/src/agent-package-format.ts:159-171 | The backward search finds the longest usable prefix. |
| Ustar.SplitRejoins | packages/sdk/src/agent-package-format.ts:159-171 | A split fits the two fields and rejoins to the whole path; splitting fails if and only if a long path has no slash in a usable place. |
| Ustar.OctalTextValue | packages/sdk/src/agent-package-format.ts:149-156 | A zero-padded octal field has the value it was written from. |
| Ustar.ChecksumFits | packages/sdk/src/agent-package-format.ts:141-147 | The checksum of any block fits six octal digits, so the unguarded write at 190 never overflows. |
| Ustar.ChecksumOfHeader | packages/sdk/src/agent-package-format.ts:141-192 | Filling in the checksum field does not change the checksum. |
| Ustar.WriteOctal | packages/sdk/src/agent-package-format.ts:149-156 | Writes the field in place, NUL-terminated, or fails without touching the buffer exactly when the value needs too many digits. |
| Ustar.TarHeaderChecksum | packages/sdk/src/agent-package-format.ts:141-147 | The loop sums the block with the checksum field counted as spaces. |
| Ustar.FillChecksum | packages/sdk/src/agent-package-format.ts:189-192 | The last step turns the filled buffer into the header, checksum field included. |
| Ustar.WriteTail | packages/sdk/src/agent-package-format.ts:182-188 | The fields behind the size are written at their offsets. |
| Ustar.TarHeader | packages/sdk/src/agent-package-format.ts:173-194 | The buffer filled at offsets equals the header given byte by byte, or the first error in the code's order is returned. |
| TarArchive.WriteMember | packages/sdk/src/agent-package-format.ts:199-205 | Header, body and padding of one entry. |
| TarArchive.BuildTar | packages/sdk/src/agent-package-format.ts:196-208 | The loop yields the archive of the specification, or the first error. |
| TarArchive.CheckHeader | packages/sdk/src/agent-package-format.ts:226-243 | The fields are read and the checks made in the code's order; the verdict is the specified one. |
| TarArchive.RestStep | packages/sdk/src/agent-package-format.ts:225-252 | What one turn of the reading loop leaves to be read, for every header, good or bad. |
| TarArchive.DamageIsDetected | packages/sdk/src/agent-package-format.ts:233-235 | Changing any single byte of an accepted header outside its checksum field makes the reader refuse it. |
| TarArchive.SafeIsContained | packages/sdk/src/agent-package-format.ts:256-265 | The path check holds exactly for relative paths without a drive, a backslash, a ".." or an empty segment before the last. |
| TarArchive.AcceptedIff | packages/sdk/src/agent-package-format.ts:228-265 | The checks together: a header passes exactly when its checksum is right, its size is a number, it is a regular file or an empty directory, and its path is contained. |
| TarArchive.ReadIsContained | packages/sdk/src/agent-package-format.ts:220-265 | Whatever the bytes, every file read has a contained path, and headers and bodies together never exceed the archive. |
| TarArchive.ReadTar | packages/sdk/src/agent-package-format.ts:223-254 | The reading loop with its offset refines the recursive reader on all inputs, malformed ones included. |
| TarLayout.HeaderIsLaidOut | packages/sdk/src/agent-package-format.ts:173-194 | Every field of a written header stands at its offset in the form of the ustar format: path fields cut at the last usable slash, octal numbers, type, magic "ustar" and version "00", NULs elsewhere. |
| TarLayout.ChecksumIsRecorded | packages/sdk/src/agent-package-format.ts:141-192 | The recorded checksum is the sum of all bytes of the header with the eight bytes of the field counted as spaces. |
| TarLayout.ArchiveIsLaidOut | packages/sdk/src/agent-package-format.ts:196-208 | In every written archive each member begins at the block its predecessors' sizes put it, with header, body and NULs to the end of the block, and two blocks of NULs end the archive. |
| TarLayout.WritableIff | packages/sdk/src/agent-package-format.ts:149-194 | An entry can be written if and only if its path fits 100 bytes or has a usable slash, its mode is below 8^7 and its size below 8^11; the path error comes first. |
| TarLayout.FirstErrorWins | packages/sdk/src/agent-package-format.ts:196-208 | A list fails with the error of its first entry that cannot be written. |
| TarRoundTrip.HeaderRoundTrip | packages/sdk/src/agent-package-format.ts:173-243 | The reader accepts every written header and finds path, size, kind and mode in it. |
| TarRoundTrip.MemberRoundTrip | packages/sdk/src/agent-package-format.ts:199-251 | Reading one written member followed by anything returns its file and goes on with the rest. |
| TarRoundTrip.ArchiveRoundTrip | packages/sdk/src/agent-package-format.ts:196-254 | Reading what the writer wrote returns exactly the regular files, in order, names and bodies intact. |
| TarRoundTrip.MemberDetermines | packages/sdk/src/agent-package-format.ts:173-205 | The bytes of a member determine its entry and where it ends. |
| TarRoundTrip.ArchiveIsInjective | packages/sdk/src/agent-package-format.ts:196-208 | Two different entry lists (paths, bodies, modes, directories) never give the same bytes. |
| TarReading.NumberIsRead | packages/sdk/src/agent-package-format.ts:231-234 | On any bytes a number is read behind blanks and one sign as far as octal digits go, and none without a digit. |
| TarReading.TextIsRead | packages/sdk/src/agent-package-format.ts:228-231 | A text field ends at its first NUL, unless a line break stands anywhere behind it: then the NUL stays. |
| TarReading.TailIsStripped | packages/sdk/src/agent-package-format.ts:234 | NULs and spaces at the end of the checksum field are left out and nothing else. |
| TarReading.RefusalIs | packages/sdk/src/agent-package-format.ts:235-243 | Which error a header is refused with, for all headers: checksum first, then size, type, directory size and path. |
| TarReading.TruncationIsDetected | packages/sdk/src/agent-package-format.ts:246-248 | A written archive cut anywhere within the body of a file is refused. |
| TarReading.EndBlocksAreOptional | packages/sdk/src/agent-package-format.ts:225-227 | Cut between two members it is read up to there, end blocks or not. |
| TarReading.OnlySevenBitsCount | packages/sdk/src/agent-package-format.ts:228-234 | No path, size or recorded checksum depends on the high bits of the header bytes. |
| TarReading.PaddingIsOptional | packages/sdk/src/agent-package-format.ts:246-250 | A last body cut within its padding is read all the same. |
| TarReading.NothingIsReadBehindTheEnd | packages/sdk/src/agent-package-format.ts:225-227 | A block of NULs, or less than a block, ends the archive whatever follows. |
| TarReading.OnlyNulsEnd | packages/sdk/src/agent-package-format.ts:225-249 | No other block ends it: its header is read, or refused with its error. |
| Semver.CompareCore | packages/sdk/src/agent-package-format.ts:97-101 | The three numbers, as the host reads them, compare lexicographically. |
| Semver.ComparePrerelease | packages/sdk/src/agent-package-format.ts:107-126 | The loop decides at the first difference by section 11.4 of Semantic Versioning 2.0.0, numbers as the host reads them; zero means equal lists. |
| Semver.CompareSemver | packages/sdk/src/agent-package-format.ts:86-127 | Refuses exactly the non-versions; otherwise returns the sign of the precedence of the two versions with every number rounded as the host rounds. That is the precedence itself when the numbers of one of them read as no others do, or all are at most 2^53; then 0 means that the texts agree up to build metadata. |
| Semver.RoundingIsExact | packages/sdk/src/agent-package-format.ts:97-119 | A version whose numeric parts are at most 2^53 is not changed by rounding. |
| Semver.RightIffAlone | packages/sdk/src/agent-package-format.ts:97-119 | For monotone rounding a version is compared rightly with every other, in both directions, if and only if each of its numbers is read as no other number is. |
| Semver.BelowExactIsAlone | packages/sdk/src/agent-package-format.ts:97-119 | Doubles read every number below 2^53 as no other number. |
| Semver.RoundingCollapses | packages/sdk/src/agent-package-format.ts:97-101 | Where 2^53 and 2^53 + 1 read alike, two versions of which one precedes the other become the same. |
| Semver.RoundingInverts | packages/sdk/src/agent-package-format.ts:97-101 | Where they read alike an order can turn round: 1.2^53.5 precedes 1.(2^53 + 1).0 and is taken to follow it. |
| Semver.SameVersionIsSameText | packages/sdk/src/agent-package-format.ts:86-107 | Parsing is exact: parsed versions agree up to build metadata, or wholly, only when their texts do. |
| Semver.PrecedenceIsTotal | packages/sdk/src/agent-package-format.ts:92-127 | Of two versions exactly one precedes the other, or they differ in build metadata at most. |
| Semver.PrecedenceIsTransitive | packages/sdk/src/agent-package-format.ts:92-127 | Precedence is transitive across numeric, alphanumeric, shorter and missing prereleases. |
| SemverText.ParseInvertsWriting | packages/sdk/src/agent-package-format.ts:86-90 | A text is read as a version if and only if it is that version in writing, by the grammar of the standard: everything of the grammar is accepted, and nothing else. |
| EdgeEvidence.ReinforcementIsMonotone | packages/horizon-store/src/graph-model.ts:76-80 | Reinforcing x by y gives x + y - x * y, which stays in [0,1] and lowers neither side. |
| EdgeEvidence.DecisionIsGood | packages/horizon-store/src/graph-model.ts:113-142 | Every decision keeps confidence in [0,1], observations positive, evidence duplicate-free, never lowers confidence, and unites the evidence. |
| EdgeEvidence.ReinforcesIffNovel | packages/horizon-store/src/graph-model.ts:106-141 | An assertion reinforces iff it brings new evidence or none at all: then it counts once and the confidence is e + c - e * c, c being the stated one; else it changes nothing. |
| EdgeEvidence.ReplayOrFresh | packages/horizon-store/src/graph-model.ts:124-134 | Among assertions with independent evidence a replay is a no-op and a new one reinforces. |
| EdgeEvidence.ReplaysDoNotCount | packages/horizon-store/src/graph-model.ts:113-142 | Any list of independent assertions with any replays ends with 1 - prod(1 - c), one observation for each distinct assertion, and the union of their evidence. |
| EdgeEvidence.DoubtIgnoresOrder | packages/horizon-store/src/graph-model.ts:72-80 | The product of the doubts does not depend on the order. |
| EdgeEvidence.OrderDoesNotMatter | packages/horizon-store/src/graph-model.ts:113-142 | Two runs over the same assertions, in any order and with any replays, end with equal confidence, observations and evidence set. |
| EdgeEvidence.FirstAssertionCreates | packages/horizon-store/src/graph-model.ts:117-123 | A first assertion leaves its confidence (brought into [0,1], 1 if none is stated), one observation and its evidence, each piece once. |
| EdgeEvidence.EvidenceGrowsInOrder | packages/horizon-store/src/graph-model.ts:124-141 | The evidence of an edge is that of before and then what is asserted, first occurrences in order. |
| EdgeEvidence.RunIsNoisyOr | packages/horizon-store/src/graph-model.ts:76-142 | After any run of independent assertions with any replays, 1 - confidence is the product of 1 - c over the distinct assertions, c being the stated confidence; observations are their number and the evidence is their union. |
| EvidenceGraph.AliasesAreGood | packages/horizon-store/src/graph-model.ts:35-45 | Merged aliases are trimmed, normalise to pairwise different non-empty names, and cover every name given. |
| EvidenceGraph.MergeKeepsExisting | packages/horizon-store/src/graph-model.ts:35-45 | Merging keeps the aliases a node has, in place, and merging nothing changes nothing. |
| EvidenceGraph.UpsertNodeAdds | packages/horizon-store/src/graph-queries.ts:431-470 | An upserted node keeps its aliases, answers to every name given, its aliases being the first-seen names of the old ones, the given ones and the name; it gains exactly the evidence; no other node, anchor or relation changes. |
| EvidenceGraph.CombineIsGood | packages/horizon-store/src/graph-queries.ts:584-596 | Combining two edges unites their evidence without duplicates and never lowers the survivor's confidence. |
| EvidenceGraph.ApplyIsSound | packages/horizon-store/src/graph-queries.ts:431-726 | Each operation keeps the graph sound: no self-loop, both endpoints present, anchors on nodes, good edges, good aliases. |
| EvidenceGraph.RunsAreSound | packages/horizon-store/src/graph-queries.ts:431-726 | Every run of upserts, merges, deletes and evidence removals from the empty graph ends sound. |
| EvidenceGraph.MergedRelsAt | packages/horizon-store/src/graph-queries.ts:560-620 | What relation every triple carries after a merge. |
| EvidenceGraph.MergeTakesOver | packages/horizon-store/src/graph-queries.ts:537-622 | A merge removes the duplicate and all its edges, each survivor edge takes over the duplicate's edge of the same triple (evidence united; nothing changed by known evidence alone, else observations added; wording kept), confidences combined to k + d - k * d, anchors are united, aliases are the first-seen ones of both, all else is untouched. |
| EvidenceGraph.SurvivorStaysIff | packages/horizon-store/src/graph-queries.ts:537-622 | With both nodes present the survivor is still there, with its anchors, if and only if it is not the duplicate itself; a node merged into itself is gone with its anchors and relations, and all else stays. |
| EvidenceGraph.SelfMergeLosesTheNode | packages/horizon-store/src/graph-queries.ts:537-622 | At that input: one node with an anchor and an edge, merged into itself, leaves only the other end. |
| EvidenceGraph.RemovalIsExact | packages/horizon-store/src/graph-queries.ts:651-726 | The key is gone everywhere; an edge goes iff it was its only evidence and else loses just that key; a node goes iff it was anchored on it and is left bare. |
| EvidenceGraph.RemovalIsIdempotent | packages/horizon-store/src/graph-queries.ts:651-726 | A second removal of the same key finds and changes nothing. |
| EvidenceGraph.RelationsAreIndependent | packages/horizon-store/src/graph-queries.ts:472-535 | However assertions about different relations interleave, each relation is what its own valid assertions make of it. |
| EvidenceGraph.ClaimsAccumulate | packages/horizon-store/src/graph-queries.ts:491-524 | In the graph, claims with independent evidence leave a relation whose doubt is the product of theirs, one observation for each distinct one and united evidence, whatever else is claimed in between. |
| EvidenceGraph.AliasesAreFirstSeen | packages/horizon-store/src/graph-model.ts:35-45 | Merged aliases are, trimmed and in order, exactly the names that are the first of their normal form. |
| EvidenceGraph.AliasesInSteps | packages/horizon-store/src/graph-queries.ts:440-443 | Merging aliases in two steps gives what merging at once gives. |
| EvidenceGraph.EdgeErrorIs | packages/horizon-store/src/graph-queries.ts:472-490 | Which error an edge assertion is refused with, by its fields; none if and only if both ends are different existing nodes, the wording is not blank and a stated confidence is in [0,1]. |
| EvidenceGraph.UpsertEdgeIs | packages/horizon-store/src/graph-queries.ts:472-535 | An edge upsert in full: refused without effect, stored as asserted the first time, later only strengthened, by its new evidence and as an independent witness; nothing else changes. |
| EvidenceGraph.RemovalKeepsOrder | packages/horizon-store/src/graph-queries.ts:676-702 | What an edge keeps of its evidence keeps its order. |
| EvidenceGraph.MergeOfMissing | packages/horizon-store/src/graph-queries.ts:540-548 | A merge of a missing node does nothing, and is an error only where the survivor alone is missing. |
| EvidenceGraph.DeletionIsExact | packages/horizon-store/src/graph-queries.ts:624-649 | Deleting a node takes exactly its anchors and relations along, deleting a relation nothing else. |
| EvidenceGraph.RemovalCounts | packages/horizon-store/src/graph-queries.ts:651-726 | The counts of a removal are the sizes of what is gone: anchors, citations, nodes and edges. |
| GraphStore.GraphStore.LinkEvidenceAnchor | packages/horizon-store/src/graph-queries.ts:300-316 | Linking twice never makes a second anchor row. |
| GraphStore.GraphStore.UpsertGraphNode | packages/horizon-store/src/graph-queries.ts:431-470 | Refused iff kind or name is blank; otherwise the new graph is the specified one. |
| GraphStore.GraphStore.UpsertGraphEdge | packages/horizon-store/src/graph-queries.ts:472-535 | The errors in the code's order; otherwise the specified graph, the stored edge and whether it was reinforced. There is never a second row for a triple. |
| GraphStore.GraphStore.DeleteGraphNode | packages/horizon-store/src/graph-queries.ts:624-634 | Deletes the node with its anchors and edges and says whether it was there. |
| GraphStore.GraphStore.DeleteGraphEdge | packages/horizon-store/src/graph-queries.ts:636-649 | Deletes one relation and says whether it was there. |
| GraphStore.GraphStore.MoveRow | packages/horizon-store/src/graph-queries.ts:567-604 | One repointed row: dropped between duplicate and survivor, combined with a twin, copied otherwise; no other relation changes. |
| GraphStore.GraphStore.Repoint | packages/horizon-store/src/graph-queries.ts:560-606 | One direction of repointing, row by row in any order, moves every edge of the duplicate exactly once. |
| GraphStore.GraphStore.MoveAnchors | packages/horizon-store/src/graph-queries.ts:610-616 | The survivor gains exactly the duplicate's anchors. |
| GraphStore.GraphStore.MergeGraphNodes | packages/horizon-store/src/graph-queries.ts:537-622 | The read-decide-write steps over rows refine the merge of the specification, a node merged into itself included. |
| GraphStore.GraphStore.RemoveAnchors | packages/horizon-store/src/graph-queries.ts:660-673 | Removes every anchor on the key and counts them. |
| GraphStore.GraphStore.RemoveFromEdges | packages/horizon-store/src/graph-queries.ts:676-702 | The edge pass strips exactly the citing edges and counts lost keys and deleted edges. |
| GraphStore.GraphStore.DeleteIfBare | packages/horizon-store/src/graph-queries.ts:711-721 | Deletes a node exactly when it has no anchor and no edge left. |
| GraphStore.GraphStore.RemoveGraphEvidence | packages/horizon-store/src/graph-queries.ts:651-726 | The passes refine the removal of the specification and the four counts are the sizes of what changed. |
| GraphStore.RepointOne | packages/horizon-store/src/graph-queries.ts:567-605 | One more moved row brings the relations one step closer to the repointed ones, whatever the order. |
| GraphStore.RepointingMerges | packages/horizon-store/src/graph-queries.ts:607-620 | Outgoing, then incoming repointing, then deletion together are the merge. |
| CypherText.EscapedFirst | packages/horizon-store/src/sql-util.ts:28-31 | The two replacement passes escape one character at a time: no quote or backslash is escaped twice or missed. |
| CypherText.StringRoundTrip | packages/horizon-store/src/sql-util.ts:28-31 | A lexer reading the literal and anything behind it consumes exactly the literal and returns the value without NULs. |
| CypherText.ListRoundTrip | packages/horizon-store/src/sql-util.ts:40-42 | A lexer reading a list literal returns exactly the listed values, for every list. |
| CypherText.OneTagPerPlace | packages/horizon-store/src/graph-queries.ts:183-187 | At one position of a query at most one candidate tag can begin. |
| CypherText.ChooseTag | packages/horizon-store/src/graph-queries.ts:183-187 | The search ends within the query length + 2 tries, with "$cy$" if the query is free of it and else with the first numbered tag that it does not contain. |
| CypherText.ClosingTagIsFirst | packages/horizon-store/src/graph-queries.ts:188 | Behind the opening tag the first occurrence of the tag is the intended closing one. |
| CypherText.BuildStatement | packages/horizon-store/src/graph-queries.ts:173-188 | The statement for a query quotes that query and nothing else. |
| CypherText.LiteralMeansItsValue | packages/horizon-store/src/sql-util.ts:28-31 | A value without NULs is read back as it is, and a NUL may as well not be there. |
| CypherText.ListMeansItsValues | packages/horizon-store/src/sql-util.ts:40-42 | A list literal of values without NULs is read back as exactly these values. |
| CypherText.StatementReads | packages/horizon-store/src/graph-queries.ts:183-188 | Reading the whole statement from its first letter yields the graph name, the query between the tags and the columns, and nothing else. |
| CapabilityState.NormalIsFixedPoint | packages/sdk/src/capability-catalog.ts:25-57 | Reading returns a state unchanged if and only if all its limits hold, names are sorted and references are not empty. |
| CapabilityState.ChangeIsLocal | packages/sdk/src/capability-runtime.ts:69-84 | An accepted change adds to or takes from one source and leaves every other selection as it was; removing never moves the held reference. |
| CapabilityState.NextStateIsNormalIff | packages/sdk/src/capability-runtime.ts:54-85 | From a normal state an accepted change leaves a state that reads back unchanged if and only if the request fits: merged names within 64, source id and reference within their limits, revision within the safe range. |
| CapabilityState.RunsStayReadableIff | packages/sdk/src/capability-runtime.ts:54-85 | From a readable state every state of a run reads back unchanged if and only if every message that takes effect fits the state it finds. |
| CapabilityState.FirstMisfitLocks | packages/sdk/src/capability-runtime.ts:54-85 | The first message that takes effect without fitting is where a run leaves the readable states. |
| CapabilityState.SixtyFifthExportLocksTheState | packages/sdk/src/capability-runtime.ts:70-84 | A request that is accepted although it leaves 65 names, so that the stored state is refused when read. |
| CapabilityState.RevisionCountsEffects | packages/sdk/src/capability-runtime.ts:63-85 | In every run the revision is the initial one plus the number of requests that took effect. |
| CapabilityState.SameMessageOnce | packages/sdk/src/capability-runtime.ts:63-68 | The same message takes effect at most once in a run, however long its receipt is forgotten. |
| CapabilityState.ReusedIdIsRefused | packages/sdk/src/capability-runtime.ts:63-66 | Within the same window a different change under a used request id is refused. |
| CapabilityState.RetryIsAnswered | packages/sdk/src/capability-runtime.ts:63-67 | A repeated accepted request is answered without effect until 64 more were accepted. |
| CapabilityLaw.AnswerIs | packages/sdk/src/capability-runtime.ts:40-85 | Which answer every request gets, by its fields and the limits 64, 200, 128, 32 and 2^53 - 1: invalid, answered or refused for a known id, revision conflict, 33rd source, or accepted. |
| CapabilityLaw.DigestsAgreeIff | packages/sdk/src/capability-runtime.ts:57-62 | Two requests hash alike if and only if source, reference and action agree and the names are the same in whatever order. |
| CapabilityLaw.UsedIdIsJudged | packages/sdk/src/capability-runtime.ts:63-66 | A used request id within the next 64 accepted requests: the same change is answered without effect, any other is refused. |
| CapabilityLaw.AcceptedStateIs | packages/sdk/src/capability-runtime.ts:69-85 | An accepted request leaves the next revision, selections in locale order, sorted names and the last 64 receipts, and reports a change if and only if the stored selections changed. |
| CapabilityLaw.ReadingIs | packages/sdk/src/capability-catalog.ts:25-57 | A stored state is read if and only if it keeps all limits; reading keeps revision, receipts, sources and exports, sorts names and drops empty references. |
| CapabilityBinding.FindSource | packages/sdk/src/capability-catalog.ts:61-63 | The first visible source of an id, or proof that there is none. |
| CapabilityBinding.SelectTools | packages/sdk/src/capability-runtime.ts:107-112 | Collects the named tools, or stops at the first that is missing, mismatched, taken or reserved. |
| CapabilityBinding.SelectServers | packages/sdk/src/capability-runtime.ts:113-124 | Collects the named servers, or stops at the first that is forbidden, missing, taken or restricted. |
| CapabilityBinding.TrySelection | packages/sdk/src/capability-runtime.ts:93-125 | A selection yields its tools and servers if and only if its source, its held reference and every export check out. |
| CapabilityBinding.BindCapabilities | packages/sdk/src/capability-runtime.ts:87-132 | The nested loops refine the fold over selections; strict mode fails iff some selection cannot be bound. |
| CapabilityBinding.WhollyOrNotAtAll | packages/sdk/src/capability-runtime.ts:92-130 | Each selection is wholly bound or wholly unavailable; bound names are pairwise distinct, not reserved and disjoint from the originals; unavailable ids are exactly those of the others, in order. |
| CapabilityBinding.BoundFromTheSource | packages/sdk/src/capability-runtime.ts:93-127 | Every bound tool and server is what the first visible source of the selected id exports under that name and the agent may use, and no later selection replaces it. |
| CapabilityBinding.HeldRevisionIsBound | packages/sdk/src/capability-runtime.ts:95-104 | With a held reference the bound source is at exactly the revision the reference names. |
| BindingLaw.OneSelection | packages/sdk/src/capability-runtime.ts:93-128 | A selection is bound if and only if the first source of its id that is shared or owned by the caller is the one a held reference names and exports every name as such, free, not reserved and open to the agent; then exactly these exports are added, else only its id to the unavailable ones. |
| BindingLaw.EachSelectionIsJudged | packages/sdk/src/capability-runtime.ts:92-131 | In every list each selection is judged so by what stands before it, and what it was given is still in the result at the end. |
| BindingLaw.OthersToolStaysPrivate | packages/sdk/src/capability-catalog.ts:61-63 | What others own and do not share is never bound. |
| RateLimiter.RecentOfRecent | packages/app/web/runtime.js:1689 | Filtering at an earlier time loses nothing a later check looks at. |
| RateLimiter.IdleHasNothingRecent | packages/app/web/runtime.js:1697-1701 | A key that pruning forgets has no stamp in the window. |
| RateLimiter.CanvasKvRate.RateOk | packages/app/web/runtime.js:1686-1703 | With a clock that does not go back the limiter decides as one that keeps the whole history; its map holds the recent stamps, less idle keys once it holds more than 2000. |
| RateLimiter.CanvasKvRate.Prune | packages/app/web/runtime.js:1697-1701 | Pruning keeps the agreement with the whole history and forgets exactly the keys without a stamp of the last five seconds. |
| RateLimiter.CanvasKvRate.WriteOk | packages/app/web/runtime.js:1280-1286 | Both limits are asked, the canvas one only after the viewer one passed. |
| RateLimiter.AdmittedIffRoom | packages/app/web/runtime.js:1689-1695 | A write is admitted exactly when the second that ends with it still has room: nothing is refused without need. |
| RateLimiter.NoWindowOverflows | packages/app/web/runtime.js:1686-1703 | With one limit for a key no second, wherever it begins, holds more admitted writes of the key than the limit. |
| RateLimiter.OwnKeysDiffer | packages/app/web/runtime.js:1280-1284 | Within a session a viewer key and a canvas key never agree. |
| RateLimiter.KeysMixIff | packages/app/web/runtime.js:1280-1284 | A canvas key is also the key of some viewer if and only if its session id has a colon and later a slash. |
| RateLimiter.BothLimitsHold | packages/app/web/runtime.js:1280-1286 | In every run no key lands more than 50 writes in any second, and none that is not a canvas key of the run more than 10. |
| RateLimiter.ViewerLimitIff | packages/app/web/runtime.js:1280-1286 | A key keeps the viewer limit in all runs if and only if it is the key of no canvas, slots being 1 to 5. |
| RateLimiter.RefusedWriteIsChargedIff | packages/app/web/runtime.js:1284 | For every refused write: the viewer is charged if and only if the viewer limit had room, that is when the canvas refused it; the canvas is never charged. |
| RateLimiter.SixthViewerPaysForNothing | packages/app/web/runtime.js:1280-1286 | A reachable run: five full viewers land, the sixth is refused by the canvas and charged in full. |
| RateLimiter.CanvasKeysAgreeIff | packages/app/web/runtime.js:1284 | Two canvases share a budget if and only if session and slot agree. |
| RateLimiter.ViewerKeysAgreeIff | packages/app/web/runtime.js:1280-1284 | Two viewers of a session share a budget if and only if provider/subject reads the same. |
| RateLimiter.WriteIs | packages/app/web/runtime.js:1280-1286 | A write lands if and only if the second that ends with it has room among 10 of the viewer and 50 of the canvas; who is charged in each case. |
| EntryCache.EvictionIs | packages/sdk/src/agent-package-service.ts:380-386 | Eviction takes a front part of the list, never the last item, stops as soon as it may, and pays back its bytes. |
| EntryCache.PackageEntryCache.Touch | packages/sdk/src/agent-package-service.ts:371-374 | A hit moves its item to the recently used end and changes nothing else. |
| EntryCache.PackageEntryCache.Read | packages/sdk/src/agent-package-service.ts:371-387 | After every sequential read, hit or miss, the counter is exact and both caps hold or one item is left; the item read is cached last, and after a miss the items left are the longest most recently used part within both caps. |
| EntryCache.StoreDrifts | packages/sdk/src/agent-package-service.ts:376-386 | Storing an item makes the counter drift by exactly the bytes cached under its key. |
| EntryCache.RunDrifts | packages/sdk/src/agent-package-service.ts:371-387 | However lookups and arrivals of overlapping reads interleave, the counter has drifted by exactly the bytes that were replaced. |
| EntryCache.StaysExactIff | packages/sdk/src/agent-package-service.ts:371-387 | The counter stays exact if and only if nothing arrives for a key that is cached with bytes. |
| EntryCache.DriftNeverFalls | packages/sdk/src/agent-package-service.ts:371-387 | A drift once gained is never lost in any continuation. |
| EntryCache.TwoMissesDrift | packages/sdk/src/agent-package-service.ts:371-387 | Two reads of one uncached package that both miss leave its bytes counted twice. |
| EntryCache.StoredStaysIff | packages/sdk/src/agent-package-service.ts:378-386 | The item stored last stays if and only if eviction may stop at or before its place. |
| EntryCache.NewKeyStays | packages/sdk/src/agent-package-service.ts:378-386 | A newly cached key is never evicted by its own arrival. |
| EntryCache.JustReadIsEvicted | packages/sdk/src/agent-package-service.ts:371-387 | A second arrival of a package that kept its old place evicts that very package. |
| EntryCache.SumOfConcat | packages/sdk/src/agent-package-service.ts:376-384 | A package is charged for its bodies one by one. |
| EntryCache.TotalIsSumOfBodies | packages/sdk/src/agent-package-service.ts:376-386 | The total is the sum of all cached bodies. |
| EntryCache.OthersKeepTheirPlaces | packages/sdk/src/agent-package-service.ts:371-387 | Storing under a known key changes that item in its place; a hit moves only its own item. |
| PathPolicy.NormalizePathForMatch | packages/sdk/src/agent-package-import-policy.ts:86-113 | Both loops refine the specified normal form. |
| PathPolicy.NormalizedIsClean | packages/sdk/src/agent-package-import-policy.ts:102-112 | A normalised path is the text of segments none of which is empty, "." or ".." or holds a slash or backslash. |
| PathPolicy.DotSegmentsResolve | packages/sdk/src/agent-package-import-policy.ts:105-110 | Wherever they stand, ".." takes back the segment before it, or nothing at the root, and "." and empty segments vanish. |
| PathPolicy.NormalizeIsIdempotent | packages/sdk/src/agent-package-import-policy.ts:86-113 | Normalising a normal path with nothing left to decode changes nothing. |
| PathPolicy.MatchIsSegmentPrefix | packages/sdk/src/agent-package-import-policy.ts:340-345 | Matching two normal paths is matching their segment lists, whatever the trailing slashes, in both directions. |
| PathMeaning.NormalizedOfDecoded | packages/sdk/src/agent-package-import-policy.ts:86-101 | A path is normalised as the text its decoding comes to rest at, or as the third decoding if it does not rest before. |
| PathMeaning.BackslashIsSlash | packages/sdk/src/agent-package-import-policy.ts:102 | A backslash anywhere is a slash. |
| PathMeaning.DotsVanish | packages/sdk/src/agent-package-import-policy.ts:103-110 | Anywhere in a path an empty segment and "." vanish and ".." takes the segment before it along. |
| PathMeaning.DotsVanishAtTheEnd | packages/sdk/src/agent-package-import-policy.ts:103-112 | At the end of a path the same, leaving no slash behind. |
| PathMeaning.RootStays | packages/sdk/src/agent-package-import-policy.ts:103-112 | At the root ".." leads nowhere, and a path may as well begin without a slash. |
| PathMeaning.CleanPathStays | packages/sdk/src/agent-package-import-policy.ts:103-112 | A path of clean segments is its own normal form, its last slash included. |
| PathMeaning.NormalizedSpells | packages/sdk/src/agent-package-import-policy.ts:86-112 | Whatever the decoder, the result spells clean segments: no encoded dot segment that decoding uncovers survives. |
| PathMeaning.MatchIsOnSpelledSegments | packages/sdk/src/agent-package-import-policy.ts:333-345 | A request matches an allowlist prefix, both as written, if and only if the segments its normal form spells begin with those of the prefix. |

## Left out

Simplifications of modelled code:

- Ustar.SplitUstarName: names are byte lists. The code measures UTF-8 length, cuts a JavaScript string and writes it as
  ASCII, which agrees for ASCII names, the only ones the round trip is promised for.
- TarArchive.BuildTar: a missing body and an empty one are one case, as in the bytes written.
- TarRoundTrip.ArchiveRoundTrip: asks for NUL-free ASCII paths that pass the reader's own path check and fit the header, and
  for directories without a body: the writer checks only the fit, and the reader refuses or alters the rest.
- Semver.CompareSemver: the host's reading of numerals is a parameter that maps numbers to numbers; that a numeral beyond the
  range of doubles reads as infinity is covered as one more rounding.
- Order.LessIsCodeUnitOrder: characters are Unicode scalars, so strings with unpaired surrogates do not exist in the model.
- EdgeEvidence.ReplaysDoNotCount: confidences are reals and observations unbounded; the code rounds to doubles. A non-finite
  confidence, which `clamp01` maps to 0, does not exist in the model.
- EvidenceGraph.RunsAreSound: bulk deletion of a namespace is not among the operations. Namespaces, agent ids, audit notes,
  models and timestamps are not stored, so `opts.namespace` is always absent.
- GraphStore.GraphStore.MergeGraphNodes: each public operation is atomic; concurrent writers and the retry of label races
  are not modelled. An anchor is a (node, scope key) pair, so the identity of `Fact` nodes is not visible.
- EvidenceGraph.AliasesAreGood: name normalisation and trimming are parameters with two laws; node and predicate keys are
  functions the store is built with.
- CypherText.StringRoundTrip: the lexer knows the simple escapes of openCypher and not `\u` ones, which the writer never makes.
- CapabilityState.SameMessageOnce: the request hash is taken to be injective: a receipt holds the hashed value itself, and
  the check that a stored hash is 64 hexadecimal digits is not modelled. The locale order of source ids is a parameter.
- CapabilityBinding.BindCapabilities: reference parsing, reserved tool names and the agent allowlist are parameters; a server
  is its allowlist and one opaque rest. Which error strict mode throws, and the fingerprint hash of what was bound, are left out.
- RateLimiter.BothLimitsHold: a viewer whose key some canvas of the run has is promised 50, not 10 (see `ViewerLimitIff`). The
  clock is a parameter and the 1 to 50 operations of a request are any number.
- EntryCache.PackageEntryCache.Read: a cached package is its list of body sizes; fetching and unpacking are a parameter.
- PathPolicy.NormalizeIsIdempotent: percent-decoding is a parameter; the law is asked for where decoding has come to rest.
- DiffText.UnifiedDiff: the context is a natural number.
- CypherText.BuildStatement: the column list is one text.
- CapabilityLaw.AcceptedStateIs: ids that the locale order does not tell apart may stand in either order.
- DiffText.PosixFileIff: speaks of files whose lines all end in a newline. For others POSIX asks for a marker line, which
  the code never writes and the model's readers do not know.
- PackageDiff.DiffPackageTrees: the UTF-8 decoder is a parameter, and of the two shapes of an entry (path/content and
  name/body) one is modelled.
- SnapshotStore.SessionBlobStore.CommitSnapshot: archiving, compression, the 256 MiB limit, raw sizes and codecs are left out;
  the content is its hash. The writes of others between two requests are whole HEAD and PUT pairs here; every finer
  interleaving is covered by the state machine in `SnapshotProtocol`.

Not modelled:

- `dehydrate`, `checkpoint`, `hydrate`, deletion and the `meta.json` mirror of epoch 0: they probe and then write
  unconditionally, outside the versioned protocol.
- gzip, sha256, Azure, Postgres, AGE, the filesystem and HTTP beyond the contracts used above.
- Searches, neighbourhoods and other reads of the graph: filters and result assembly.
- Portal dispatch and authorization, canvas access rules, agent names, base agents, notifications: each rule is settled by one branch.
- The embedder lifecycle, publishing and deletion of packages: they rest on database procedures outside these files.
- URL and address checks of the import policy other than path matching.
