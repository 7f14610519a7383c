# Verified model of the rsdd algorithms

`rsdd` is a toolbelt written in Go. Most of it runs other programs; a handful of files hold algorithms whose results other
steps rely on. This project models those algorithms in Dafny and proves what they are for:

- **ZIP names** (`NormalForms`, `ZipName`): the NFC normaliser decides canonical equivalence as the mappings of its tables generate
  it, is idempotent, and composes exactly as the Unicode Standard (sections 3.11 and 3.12) defines it.
- **ZIP reading and STORED extraction** (`ZipRead`, `ZipMember`, `ZipPaths`, `ZipSpans`, `ZipStored`, `ZipExtract`,
  `ArtifactPath`, `ZipPublish`, `ZipRefused`): every fast check agrees with a plain statement about the file, reading undoes writing and writing undoes
  reading (sections 4.3.7, 4.3.12 and 4.3.16 of PKWARE APPNOTE.TXT), a member whose reading ends without an error was
  delivered whole with the declared CRC, and the whole run publishes exactly the files that are said to be publishable, as
  exactly the tree their entries call for.
- **QNX6** (`Qnx6`, `QnxWalk`): block arithmetic never wraps, the early-stopping read is exact, the walk of a possibly cyclic
  directory graph lists every directory once, in preorder, and agrees with path resolution, which answers what is true of the
  image; directories and inodes are read back as they are written.
- **Merge train** (`MergeTrain`): a protocol against a main branch that others may move between any two steps. Main is an
  append-only chain of commits; every history of the outside world, with its gate answers, fetch failures and foreign pushes,
  is one value of `World`, and the theorems quantify over all of them. Every end state has its cause in the world, and a run in
  which nothing fails and nobody interferes merges the whole batch.
- **CI gate** (`JqOrder`, `Grouping`, `CiRuns`, `PathGlob`, `ChangedFiles`, `CiGate`): the recursive order on JSON values is
  the total order jq documents, the latest runs do not depend on how runs are listed, the verdict is the one the runs deserve,
  and a merge that is let through is justified check by check and changed file by changed file; on plain names and patterns
  the gate opens exactly when it is.
- **Kernels** (`SquashfsScan`, `LintUnits`, `Gf2`, `FrameChecksum`): the chunked superblock scan, the Markdown units and their
  waivers, and the frame checksums: the CRC loops compute the remainder of a division over GF(2), and every test is a residue
  test.

`Wrappers`, `Sequences`, `Bytes`, `Text`, `Orders`, `StableSort` and `Pairs` hold what several of these share.

Code that updates state in place is modelled by classes and by methods with loops (`Train`, `Walker`, `RnRead`,
`MemberReader`, `Stage`, `ReorderInPlace` over an array), each proved against a function or a predicate; the theorems are
lemmas about those. `dafny verify dfyconfig.toml` checks the whole project.

## What is assumed

- `MergeTrain.World.Honest`: main only grows; a pull request is merged at most once; one that GitHub reports open is not yet
  merged; `waitMerge` answers 0 only once the pull request is on main at the gated head
  (`research-sdd/rsdd/internal/core/kitwait/wait.go`, lines 156 to 173). A commit is identified with its first-parent history,
  as its hash identifies it.
- `ZipName.Tables`: the generated tables are sorted, every compose row inverts a decomposition row, and decomposition is
  well-founded; for `ZipNfcComposesByDefinition` also that only starters compose, to starters. These are facts about
  `zipdata_gen.go`, stated as a subset type and a predicate.
- `Qnx6.Reader`: a read returns no more bytes than it was asked for, and offsets and sizes fit their machine types.
- `ArtifactPath.Decoding`: the folding table leaves ASCII alone; how escaped bytes outside ASCII decode is any function.
- `ZipMember.Honest`: a source reports nothing but the end of its payload, only there, and never answers a real buffer with
  nothing. It is needed for the verdict theorem only; delivery of a prefix and sticky errors hold for every source.
- `LintUnits.WellFormed`: a line that looks like a table separator looks like a table row, and a row is not blank. Both follow
  from the line patterns.

## Where the code and its comments part

- The comment on `pfPatOK` and `pfGlobRE` calls the pattern emulation exact. A pattern may spell the code's own placeholder
  `@@DS@@`, whose characters are all allowed; the expression then matches more than the pattern.
  `PathGlob.GlobREExact` gives the exact condition. The error is on the safe side, so `CiGate.GateIsSound` holds regardless.
- When extraction starts, the stage already holds its own copy of the archive as `archive.zip`, and later the run needs five
  more names beside the entries: `zip-stored.v1.json`, `stdout.txt`, `stderr.txt`, `manifest-spec.json` and
  `analysis-manifest.v1.json`. The inspection does not know these names. A directory entry `archive.zip/` even passes the
  extraction, which leaves the file where the directory should be, and is refused only when the tree is validated
  (`ZipPublish.ToleratedIsMissed`; three archives in `ZipRefused.OwnNameRefused`).
- Nor does the inspection know what the manifest can record: `ZipStored` hands every file path to the manifest tool, which
  refuses names the inspection admits: blank ones, those that begin like a URI (`scheme:file`; the inspection looks for one
  letter before the colon), and those whose percent escapes or compatibility characters spell a backslash, a root, or an
  empty, dot or parent component (`%2E%2E/file`), or still change after seven readings. Two archives are in `ZipRefused.ForeignNameRefused`.
- So the comment on `ZipStored`, that it extracts an entire archive of plain STORED files, holds under a condition.
  `ZipPublish.Publish` gives it exactly: an accepted archive is published if and only if every payload is intact, no path
  begins with one of the six names, every file path is artifact-relative (`ArtifactPath.Relative`; for ASCII without percent
  signs `ZipPublish.LiteralPublishable` reads it off the name), and the paperwork for its entries can be done: the report fits
  its cap, and the manifest tool takes the launcher and the arguments of the run.
- The header of `gate/mergepf.go` and the comment on `prFiles` speak of the pull request's changed files. The code judges the
  lines of a listing of their names, and a name may itself hold a newline: with a changed file named x, newline, y, a pattern
  `x*y` in the only workflow that carries a required check matches the file and no line, and the check is taken out of the
  required set (`CiGate.NewlineName`). `CiGate.GateSafeExactly` gives the exact condition on a name: at most one of its lines
  holds a character that an accepted pattern can spell and the name is not newlines only, or one of its lines begins with
  `.github/workflows/`. NULs are dropped before lines are told apart.

## Model

| member | source | states |
|---|---|---|
| `ZipName.ZipNfcIsCanonical` | research-sdd/rsdd/internal/formats/zipname.go:102-110 | for all tables whose compose rows invert decomposition rows: normalising keeps the canonical decomposition of every text, and doing it twice changes nothing |
| `ZipName.ZipNfcComposesByDefinition` | research-sdd/rsdd/internal/formats/zipname.go:177-201 | the composition loop with its `starter` and `last` variables composes exactly the pairs that the standard's definition by blocking lets compose |
| `ZipName.OneSpellingPerName` | research-sdd/rsdd/internal/formats/zipname.go:102-110 | of all canonically equivalent spellings of a name exactly one satisfies `zipNFC(name) == name` |
| `ZipName.DecomposeIsFull` | research-sdd/rsdd/internal/formats/zipname.go:112-131 | nothing in a decomposition decomposes further |
| `ZipName.PairComposeInverts` | research-sdd/rsdd/internal/formats/zipname.go:158-174 | whatever a pair composes to, by table or by Hangul arithmetic, decomposes to what the pair decomposes to |
| `ZipName.PairComposeIs` | research-sdd/rsdd/internal/formats/zipname.go:158-174 | a pair composes to the syllable that maps to it, otherwise to the composite the table lists for it, and otherwise to nothing |
| `ZipName.TablesLawful` | research-sdd/rsdd/internal/formats/zipname.go:112-174 | the table lookups satisfy the two laws the normal-form theorems need |
| `ZipName.Ccc` | research-sdd/rsdd/internal/formats/zipname.go:133-139 | the class is that of the range holding the code point, and 0 outside every range |
| `ZipName.FindDecomp` | research-sdd/rsdd/internal/formats/zipname.go:121-124 | the binary search finds the row of a code point if and only if there is one |
| `ZipName.ZipNfc` | research-sdd/rsdd/internal/formats/zipname.go:102-110 | the three passes as run, over an array for the reordering, compute NFC: the result is canonically equivalent to the text by the mappings of the tables, and it is the NFC of every equivalent text |
| `ZipName.NfdIsNormalForm` | research-sdd/rsdd/internal/formats/zipname.go:102-156 | the decomposition computed for a text is the one text, with no code point left to map and no mark after one of a higher class, that is reached from it by replacing code points by their mappings and exchanging marks: every row of the table, of one part or two, listed for composition or not, and the syllables' mappings |
| `ZipName.ZipNfcDecidesEquivalence` | research-sdd/rsdd/internal/formats/zipname.go:102-201 | two names have the same NFC if and only if mappings and exchanges, made and unmade, lead from one to the other |
| `ZipName.RowKeepsNfc` | research-sdd/rsdd/internal/formats/zipname.go:121-130 | replacing a code point by its row of the decomposition table, anywhere in a name, leaves the NFC alone |
| `ZipName.StaysItself` | research-sdd/rsdd/internal/formats/zipname.go:112-124 | decomposition leaves a code point alone if and only if it has no mapping: no row of the table, and no syllable |
| `NormalForms.NfcPreservesEquivalence` | research-sdd/rsdd/internal/formats/zipname.go:102-201 | over any lawful scheme, composing leaves the canonical decomposition of the text unchanged |
| `NormalForms.NfcIdempotent` | research-sdd/rsdd/internal/formats/zipname.go:102-110 | NFC of an NFC text is the text |
| `NormalForms.NfcDecidesEquivalence` | research-sdd/rsdd/internal/formats/zipname.go:102-110 | two texts have the same NFC if and only if they have the same canonical decomposition |
| `NormalForms.NfcComposesByDefinition` | research-sdd/rsdd/internal/formats/zipname.go:177-201 | over any lawful scheme in which only starters compose, NFC is composition by the definition of blocking |
| `NormalForms.ReorderInPlace` | research-sdd/rsdd/internal/formats/zipname.go:142-156 | sorting every maximal run of non-starters in place by class is the canonical ordering of the whole array |
| `NormalForms.ReorderOrdered` | research-sdd/rsdd/internal/formats/zipname.go:142-156 | the reordered text has no reorderable pair |
| `NormalForms.ReorderFixed` | research-sdd/rsdd/internal/formats/zipname.go:142-156 | a canonically ordered text is left alone |
| `NormalForms.ReorderPermutes` | research-sdd/rsdd/internal/formats/zipname.go:142-156 | reordering permutes the text |
| `NormalForms.ReorderSwap` | research-sdd/rsdd/internal/formats/zipname.go:142-156 | exchanging a reorderable pair anywhere does not change the canonical order: the order is a function of the equivalence class |
| `NormalForms.ComposeRunes` | research-sdd/rsdd/internal/formats/zipname.go:177-201 | the loop over one output slice computes the composition fold |
| `MergeTrain.Train.Run` | research-sdd/rsdd/internal/gate/mergetrain.go:218-341 | in every history of main and its other writers the run ends with a typed state, and `Ran`, `Outcome` and `Caused` say what was asked of main, what each end state promises and what it is due to: `merged` and `train-partial`, main is the base plus exactly one commit per merged pull request, in order, with the gated tree; `base-moved`, main had grown and nothing was asked; `train-gate-failed`, the whole train was seen red; `main-raced` after a wait that answered 0, a commit that is not the pull request's really lies above the expected tip; `tree-mismatch`, the trees differ; `fetch-failed`, a fetch failed; `train-error`, a worktree, a merge, a merge made anew or the gate failed; `train-empty` and `train-partial`, everyone missing was refused or conflicted; each merge was asked for with a worktree at hand and counts exactly when its wait answered 0; and when nothing outside fails and main grows only by what was asked, the run merges the whole batch |
| `MergeTrain.Train.SmoothRun` | research-sdd/rsdd/internal/gate/mergetrainflow.go:269-348 | the same for the state a run ends in: if fetches and worktrees work, every pull request passes the checks, merges are clean, the gate is green, waits answer 0, equal histories have equal trees and main grows over the base only by merges the train asked for, then the end is `merged` and the whole batch is merged, in order, with nothing else on main |
| `MergeTrain.Train.TakeWorktree` | research-sdd/rsdd/internal/gate/mergetrainflow.go:276-284 | a worktree is at hand if and only if one was given for the pull request or making it works now |
| `MergeTrain.BoardsExactly` | research-sdd/rsdd/internal/gate/mergetrainflow.go:75-122 | a pull request boards if and only if it is an open non-draft on the base whose head is known, confirmed by a matching pin and still the head of its branch, with the given worktree, if any, at that head |
| `MergeTrain.PinIsPrefix` | research-sdd/rsdd/internal/gate/mergetrainflow.go:39-42 | a pin matches exactly when the head begins with it letter by letter, case aside |
| `MergeTrain.OneCommitIsOurs` | research-sdd/rsdd/internal/gate/mergetrainflow.go:290-305 | main grew by one commit over the expected tip and the pull request is on main: that commit is the pull request at the gated head, nothing was interleaved |
| `MergeTrain.RaceIsReal` | research-sdd/rsdd/internal/gate/mergetrainflow.go:290-305 | the expected-tip check raises no false alarm: if the wait answered 0 and the parent of main is not the expected tip, main has grown over that tip by the pull request and by something else |
| `MergeTrain.AfterMergeSound` | research-sdd/rsdd/internal/gate/mergetrainflow.go:290-305 | the expected-tip check keeps the invariant that an unstopped train has main equal to base plus its merges, whatever others push between the steps |
| `MergeTrain.NotYetMerged` | research-sdd/rsdd/internal/gate/mergetrainflow.go:92-93 | a pull request seen open after the base was read, and not merged by the train since, is not on the expected tip |
| `MergeTrain.Train.CheckPRs` | research-sdd/rsdd/internal/gate/mergetrainflow.go:75-122 | exactly the pull requests that pass every check board, in order, and every other row is refused with the first failing reason |
| `MergeTrain.Train.BuildTrain` | research-sdd/rsdd/internal/gate/mergetrainflow.go:129-155 | the train is exactly the pull requests whose merge, each tried in order on what had merged before it, answered clean; every other one answered with a conflict and is dropped; the run ends with `train-error` if and only if the worktree or a merge broke, and with `train-empty` if and only if all conflicted |
| `MergeTrain.Train.RunGate` | research-sdd/rsdd/internal/gate/mergetrainflow.go:159-177 | each gate answer leads to its code or its end state, and a lock timeout is returned only inside a bisect |
| `MergeTrain.Train.Bisect` | research-sdd/rsdd/internal/gate/mergetrainflow.go:185-217 | for any gate: at most ceil(log2 n) runs, each on the base plus exactly a prefix in order, and a finished bisect names k with prefix k seen red and prefix k-1 seen green or the base |
| `MergeTrain.Train.RunTrainGate` | research-sdd/rsdd/internal/gate/mergetrainflow.go:180-226 | the run goes on only after one green gate on the train head; it fails the gate only after a red one on that head, with a culprit exactly of the kind the bisect found |
| `MergeTrain.FirstRedPrefix` | research-sdd/rsdd/internal/gate/mergetrainflow.go:187-214 | when the gate is monotone in the prefix and the base is green, the named pull request ends the first red prefix |
| `MergeTrain.Halving` | research-sdd/rsdd/internal/gate/mergetrainflow.go:188-208 | one run always leaves one halving less to do, whichever half is kept |
| `MergeTrain.CeilLog2Bounds` | research-sdd/rsdd/internal/gate/mergetrainflow.go:188-208 | the bound on the runs is the ceiling of the binary logarithm |
| `MergeTrain.Train.PreMerge` | research-sdd/rsdd/internal/gate/mergetrainflow.go:229-241 | the merge phase starts only with main fetched and equal to the base the train was built on; `base-moved` only with main fetched and different, `fetch-failed` only after a fetch that failed |
| `MergeTrain.Train.MergeNext` | research-sdd/rsdd/internal/gate/mergetrainflow.go:270-313 | one turn keeps the invariant of the merge phase, changes only its own row, asks only with a worktree at hand, and stops without asking only when the worktree could not be made |
| `MergeTrain.Train.MergeLoop` | research-sdd/rsdd/internal/gate/mergetrainflow.go:269-313 | after the loop the merged and the asked pull requests are prefixes of the train, nothing is asked after a stop, and every row says what happened |
| `MergeTrain.Train.VerifyTree` | research-sdd/rsdd/internal/gate/mergetrainflow.go:244-266 | it passes only if main's tree is the tree of the base plus the pull requests merged, reports a mismatch only if they differ, and an error only if the worktree or a merge made anew failed |
| `MergeTrain.Train.Conclude` | research-sdd/rsdd/internal/gate/mergetrainflow.go:314-348 | after a stop the end state is the one of the code that stopped the train, and that code is the answer of the wait for the last pull request asked for, or the failed fetch, the race or the worktree; only when the tree on main must be confirmed can it be `tree-mismatch` or `train-error` instead; without a stop it follows from the trees and the rows |
| `QnxWalk.WalkListsOnce` | research-sdd/rsdd/internal/formats/qnx6.go:375-406 | on every directory graph, cycles included, a completed walk lists each visited directory exactly once, each reached from the root by entries of those listed before it, and the lines it emits are, as a multiset, the lines of all their entries |
| `QnxWalk.WalkVisitsReachable` | research-sdd/rsdd/internal/formats/qnx6.go:375-406 | if nothing was truncated, the visited set is exactly the set of directories reachable from the root |
| `QnxWalk.WalkInPreorder` | research-sdd/rsdd/internal/formats/qnx6.go:387-404 | a directory that is read adds its entries in sorted order, each line followed by exactly what lies below it |
| `QnxWalk.EntriesAscend` | research-sdd/rsdd/internal/formats/qnx6.go:387-389 | that order is lexicographic by name and then by inode number, and keeps every entry |
| `QnxWalk.ShallowIsWhole` | research-sdd/rsdd/internal/formats/qnx6.go:376-379 | a walk is cut only when the image has a chain of more directories than the depth cap allows |
| `QnxWalk.WalkAgreesWithResolve` | research-sdd/rsdd/internal/formats/qnx6.go:375-429 | when the names in each directory reachable from the root are distinct, not empty and free of slashes, every path, mode and size emitted is what resolving the path returns |
| `QnxWalk.Walker.Walk` | research-sdd/rsdd/internal/formats/qnx6.go:375-406 | the recursion over the mutable visited set, truncation mark and output is the walk the theorems are about |
| `QnxWalk.Resolve` | research-sdd/rsdd/internal/formats/qnx6.go:409-429 | the outcome is the one that is true of the image: found, with that inode, if and only if a chain of inodes leads from the root, one step per component, each to the first entry of that name, and its end reads so; missing if and only if such a chain for the components before some name ends in a readable directory without that name; unreadable if and only if such a chain ends in a directory that does not read, or the last inode does not |
| `QnxWalk.ResolvedAnswers` | research-sdd/rsdd/internal/formats/qnx6.go:409-429 | the same for the recursive definition that the theorems about the walk use |
| `QnxWalk.SplitNonEmpty` | research-sdd/rsdd/internal/formats/qnx6.go:431-443 | the byte loop returns the non-empty parts of splitting at slashes |
| `QnxWalk.ComponentsChild` | research-sdd/rsdd/internal/formats/qnx6.go:390-392 | the components of a child path are those of its directory and the name |
| `Qnx6.BlockPosExact` | research-sdd/rsdd/internal/formats/qnx6.go:127-137 | for every int64 partition offset the block position is `poff + (blk + off) * bs`, or the block is refused exactly when that or the distance does not fit; nothing wraps |
| `Qnx6.RealBytesExact` | research-sdd/rsdd/internal/formats/qnx6.go:267-276 | the wrapping uint64 computation of the bytes ahead equals `max(size - poff, 0)` |
| `Qnx6.ReadFileExact` | research-sdd/rsdd/internal/formats/qnx6.go:261-290 | with all blocks readable and the limit equal to the declared size, the early-stopping read returns the first `min(size, total)` bytes of the depth-first concatenation of leaves; with a smaller limit still a prefix that reaches it |
| `Qnx6.LimitIsSize` | research-sdd/rsdd/internal/formats/qnx6.go:265-280 | the limit differs from the declared size exactly when the image is known to be shorter |
| `Qnx6.CollectBounded` | research-sdd/rsdd/internal/formats/qnx6.go:281-289 | whatever the tree and whichever blocks fail, fewer than limit + block size bytes are held |
| `Qnx6.RnRead.EachLeaf` | research-sdd/rsdd/internal/formats/qnx6.go:149-177 | the recursive block walk with a stopping callback that grows the buffer is the collecting walk |
| `Qnx6.ReadRNFile` | research-sdd/rsdd/internal/formats/qnx6.go:261-290 | the read as run returns what the specification function returns, errors included |
| `Qnx6.DetectOff` | research-sdd/rsdd/internal/formats/qnx6.go:222-257 | detection returns the smallest offset whose first leaf shows a root directory, passing over unreadable ones, and stops at an earlier parse error |
| `Qnx6.ParseDirents` | research-sdd/rsdd/internal/formats/qnx6.go:329-363 | the record loop parses a directory block as the recursive definition does, long names included |
| `Qnx6.ListDirectory` | research-sdd/rsdd/internal/formats/qnx6.go:329-363 | a directory is listed from all of its data or not at all: an inode out of range, unreadable data, a short read and a bad name are each an error, and otherwise exactly the records that name something are listed, each once and in the order of the data |
| `Qnx6.DirentsList` | research-sdd/rsdd/internal/formats/qnx6.go:341-361 | the records parse if and only if every used record's name can be read, and the entries are then exactly the naming records, in order |
| `Qnx6.WrittenIsListed` | research-sdd/rsdd/internal/formats/qnx6.go:319-363 | a directory written record by record, short names in the record and long ones in the names file, with free slots anywhere, is listed as exactly those records, the two dot names left out |
| `Qnx6.InodeIsRead` | research-sdd/rsdd/internal/formats/qnx6.go:292-309 | an inode laid out field by field is read back as it was written |
| `Qnx6.PointersAreRead` | research-sdd/rsdd/internal/formats/qnx6.go:159-174 | an indirect block is read as the pointers written in it |
| `Qnx6.ListImage` | research-sdd/rsdd/internal/formats/qnx6.go:375-406 | over the directories as they are read from any image: a listing that ends without an error holds exactly the lines of the entries of directories listed once each, all reachable ones unless it says it was cut, and with well-named directories every line agrees with path resolution |
| `ZipRead.FindEocd` | research-sdd/rsdd/internal/formats/zipread.go:104-134 | looking at the last 65557 bytes and jumping back by signature finds the greatest offset in the whole file whose record and comment end exactly at its end, and fails if and only if there is none |
| `ZipRead.ReadZipDirectory` | research-sdd/rsdd/internal/formats/zipread.go:148-260 | the reader accepts a file if and only if some directory is laid out in it as sections 4.3.12 and 4.3.16 of PKWARE APPNOTE.TXT describe, within the caps, and returns that one |
| `ZipRead.ReadEocd` | research-sdd/rsdd/internal/formats/zipread.go:154-185 | the checks on the end record are exactly its declared acceptability, for every prefix in front of the archive |
| `ZipRead.ReadRecord` | research-sdd/rsdd/internal/formats/zipread.go:189-227 | a record is returned if and only if one is spelled there, ends before the end record and is acceptable |
| `ZipRead.ReadCentral` | research-sdd/rsdd/internal/formats/zipread.go:186-251 | the walk returns the one list of n admitted records that tile the region up to the end record, and fails only if there is none |
| `ZipRead.ScanExtra` | research-sdd/rsdd/internal/formats/zipread.go:273-295 | the cursor loop accepts exactly the areas made of whole blocks none of which is ZIP64 |
| `ZipRead.LaidOutUnique` | research-sdd/rsdd/internal/formats/zipread.go:148-260 | at most one directory is laid out in a file |
| `ZipRead.MetadataIsTail` | research-sdd/rsdd/internal/formats/zipread.go:263-269 | the metadata is the file from the central offset to its end |
| `ZipRead.ReadingUndoesWriting` | research-sdd/rsdd/internal/formats/zipread.go:148-260 | for every prefix, body, record list and comment within the caps, without ZIP64 markers and without a later end-record candidate, the written archive has exactly these records laid out at these offsets |
| `ZipRead.WritingUndoesReading` | research-sdd/rsdd/internal/formats/zipread.go:148-260 | writing what was read, around the bytes not looked at, gives every accepted file back byte for byte |
| `ZipRead.TilesEncode` | research-sdd/rsdd/internal/formats/zipread.go:188-251 | records tile a region if and only if its bytes are their encodings in order |
| `ZipRead.RecordAtEncodes` | research-sdd/rsdd/internal/formats/zipread.go:192-218 | a region spells a record if and only if its bytes are the record's encoding |
| `ZipMember.ReadLocalHeader` | research-sdd/rsdd/internal/formats/zipread.go:340-365 | a local header is returned if and only if one is spelled there with a well-formed extra area, with the payload right behind it |
| `ZipMember.MemberReader.Read` | research-sdd/rsdd/internal/formats/zipread.go:385-408 | the method on the mutable reader is the step function the theorems are about, and keeps the reader valid |
| `ZipMember.MemberReader.FinishMember` | research-sdd/rsdd/internal/formats/zipread.go:421-435 | the end of a member: probe for extra output, then the CRC, then end of file, and the verdict is kept |
| `ZipMember.RunDeliversPrefix` | research-sdd/rsdd/internal/formats/zipread.go:385-435 | for every sequence of buffer sizes and every source: what was delivered is a prefix of the payload no longer than the size; end of file comes only after exactly that many bytes with the declared CRC |
| `ZipMember.ErrorsStick` | research-sdd/rsdd/internal/formats/zipread.go:386-388 | after an error every later call returns the same error and no byte |
| `ZipMember.RunReachesVerdict` | research-sdd/rsdd/internal/formats/zipread.go:385-435 | over an honest source the terminal error depends on the payload alone, not on buffers or on how reads are split, and size + 1 calls with real buffers always reach it |
| `ZipMember.FoldAppend` | research-sdd/rsdd/internal/formats/zipread.go:397 | feeding the checksum chunk by chunk is feeding the concatenation |
| `ZipMember.StoredVerdict` | research-sdd/rsdd/internal/formats/zipread.go:441-459 | a STORED member ends well if and only if the bytes in the file have the declared CRC |
| `ZipMember.CopyAll` | research-sdd/rsdd/internal/formats/zipstored.go:282 | copying to the first error copies all there is up to the declared size and ends with the verdict |
| `ZipPaths.Claim` | research-sdd/rsdd/internal/formats/zipstored.go:166-185 | one entry against the tables keyed by joined paths: a conflict is raised if and only if it conflicts with an entry seen before, and otherwise the tables track it |
| `ZipPaths.AnyConflict` | research-sdd/rsdd/internal/formats/zipstored.go:166-185 | one pass raises a conflict if and only if two entries share a path or a file's path is a proper component prefix of another entry's |
| `ZipPaths.OrderIrrelevant` | research-sdd/rsdd/internal/formats/zipstored.go:166-185 | the order in which entries are listed does not matter to that |
| `ZipSpans.SpansOverlap` | research-sdd/rsdd/internal/formats/zipstored.go:230-235 | sorting by start and comparing neighbours finds an overlap if and only if two spans share a byte |
| `ZipSpans.ApartFit` | research-sdd/rsdd/internal/formats/zipstored.go:230-235 | disjoint spans in a region are together no longer than the region, however listed |
| `ZipStored.SafeIsNotUnsafe` | research-sdd/rsdd/internal/formats/zipstored.go:106-116 | the unsafe-path test rejects exactly the names that are not relative, in NFC and made of ordinary components |
| `ZipStored.CheckName` | research-sdd/rsdd/internal/formats/zipstored.go:145-165 | a name passes if and only if it is within the caps, decodable and safe |
| `ZipStored.CheckKind` | research-sdd/rsdd/internal/formats/zipstored.go:186-207 | an entry passes if and only if it is a plain stored file or directory of admitted size |
| `ZipStored.CheckLocal` | research-sdd/rsdd/internal/formats/zipstored.go:212-224 | a local header is accepted if and only if it is there, agrees with the record and its payload ends before the central directory |
| `ZipStored.InspectEntries` | research-sdd/rsdd/internal/formats/zipstored.go:143-236 | the loop admits the records if and only if all fit, stay within the total, do not conflict and do not overlap |
| `ZipStored.InspectStored` | research-sdd/rsdd/internal/formats/zipstored.go:132-237 | inspection accepts exactly the files with a laid-out directory and admissible entries |
| `ZipStored.AdmittedFits` | research-sdd/rsdd/internal/formats/zipstored.go:199-235 | after admission all spans are pairwise disjoint and lie in the archive, so the bytes to extract plus 30 per entry are at most `CentralOffset - PrefixBytes` |
| `ZipExtract.Stage.MkdirChain` | research-sdd/rsdd/internal/formats/zipstored.go:240-247 | making a chain that tolerates existing paths works if and only if no file is in the way, and adds exactly the missing directories |
| `ZipExtract.ExtractFile` | research-sdd/rsdd/internal/formats/zipstored.go:271-290 | it succeeds if and only if the place is free, its parent is a directory and the CRC is right, and a free place gets exactly the payload |
| `ZipExtract.ExtractStored` | research-sdd/rsdd/internal/formats/zipstored.go:251-269 | in any stage: success means every entry was admitted by the stage as it was and every CRC is right; for entries that do not conflict that is also sufficient, and the tree has grown by exactly their missing directories and their files |
| `ZipExtract.StoredRun` | research-sdd/rsdd/internal/formats/zipstored.go:359-368 | inspection then extraction, in any stage: it succeeds for exactly the accepted archives whose entries the stage admits with intact payloads, and fails for every other file |
| `ZipExtract.AdmittedUnrelated` | research-sdd/rsdd/internal/formats/zipstored.go:363-365 | admitted entries never conflict with each other and can all be read as they lie |
| `ZipExtract.TrimIsPlain` | research-sdd/rsdd/internal/formats/zipstored.go:254 | for a safe name, trimming all trailing slashes is trimming the one that marks a directory |
| `ZipPublish.Publish` | research-sdd/rsdd/internal/formats/zipstored.go:340-440 | the whole run over any file: it succeeds if and only if the file is an accepted archive whose payloads are intact, none of whose paths begins with one of the six names the run uses itself and each of whose file paths the manifest can record, and the paperwork for its entries can be done (the report fits its cap, the manifest tool takes launcher and arguments); what is then published is exactly the directories and files of the entries and the four reports |
| `ZipPublish.FileReports` | research-sdd/rsdd/internal/formats/zipstored.go:411-438 | the reports can be filed if and only if the paperwork is complete, none of their five places is taken and every file path is artifact-relative; the copy of the archive and the specification are gone afterwards |
| `ZipPublish.CheckManifest` | research-sdd/rsdd/internal/formats/zipstored.go:426-436 | the manifest records the report, the entries' files and the two logs, and takes them if and only if every file path is artifact-relative |
| `ZipPublish.LiteralPublishable` | research-sdd/rsdd/internal/formats/zipstored.go:382-436 | for an accepted entry whose path is ASCII without percent signs the manifest's condition is one a caller can read off: a file's path is not blank and does not begin like a URI |
| `ZipPublish.Expected` | research-sdd/rsdd/internal/formats/zipstored.go:370-395 | the expected sets hold exactly the four reports and the entries' files, and exactly the directories on the entries' paths; the recorded outputs are the entries' files |
| `ZipPublish.ValidateTree` | research-sdd/rsdd/internal/formats/zipout.go:283-326 | the tree passes if and only if its files and its directories are exactly those expected |
| `ZipPublish.StageAdmits` | research-sdd/rsdd/internal/formats/zipstored.go:240-268 | the stage's own copy is in the way of every entry whose path begins with `archive.zip`, except a directory of just that name, which is tolerated and changes nothing |
| `ZipPublish.VacantIff` | research-sdd/rsdd/internal/formats/zipstored.go:411-418 | after the extraction the places of the reports are free if and only if no entry's path begins with one of their names |
| `ZipPublish.PublishedIsExpected` | research-sdd/rsdd/internal/formats/zipstored.go:370-395 | path by path, what is published is expected as what it is, and what is expected is published |
| `ZipPublish.ToleratedIsMissed` | research-sdd/rsdd/internal/formats/zipstored.go:419-434 | a directory entry `archive.zip` that was tolerated is missed once the copy is removed: the tree is not closed |
| `ZipRefused.OwnNameRefused` | research-sdd/rsdd/internal/formats/zipstored.go:355-434 | three accepted archives, of one entry `archive.zip`, `archive.zip/x` or `archive.zip/`, that are never published; only the last passes the extraction |
| `ZipRefused.ForeignNameRefused` | research-sdd/rsdd/internal/formats/zipstored.go:426-436 | two more, of one empty file `scheme:file` or `%2E%2E/file`: accepted, possibly intact, under no reserved name, and never published |
| `ArtifactPath.RelativePath` | research-sdd/rsdd/internal/core/adapter/manifest.go:155-192 | the loop of at most eight readings and its tests accept a path if and only if it is not blank, stops changing within seven readings for good, and is then canonical |
| `ArtifactPath.CanonicalIs` | research-sdd/rsdd/internal/core/adapter/manifest.go:184-190 | the refusals taken together (backslash, scheme, root, parent component, differing normal form) leave exactly the dot and the paths of ordinary components |
| `ArtifactPath.LiteralRelative` | research-sdd/rsdd/internal/core/adapter/manifest.go:155-192 | a path of ordinary components in ASCII without percent signs is refused if and only if it is blank or begins like a URI |
| `ArtifactPath.NoReadingEscapes` | research-sdd/rsdd/internal/core/adapter/manifest.go:155-192 | an accepted path leads outside the artifacts after no number of readings of its escapes and compatibility characters |
| `ArtifactPath.RoundBreaks` | research-sdd/rsdd/internal/core/adapter/pyos.go:33-43 | any ASCII character that is neither a percent sign nor a hexadecimal digit cuts every run of escapes: both sides of it are read on their own |
| `JqOrder.JqCmpIsTotalOrder` | research-sdd/rsdd/internal/gate/mergejq.go:163-210 | the comparison is reflexive, antisymmetric in sign and transitive through nested arrays and objects |
| `JqOrder.JqCmpIsBefore` | research-sdd/rsdd/internal/gate/mergejq.go:163-230 | it is the order jq documents: null, false, true, numbers, strings, arrays, objects; strings and arrays lexicographic with a proper prefix first, objects by their sorted keys and then by their values in key order |
| `JqOrder.JqEqual` | research-sdd/rsdd/internal/gate/mergejq.go:163-210 | it answers 0 exactly for equal values |
| `JqOrder.JqAntisymmetric` | research-sdd/rsdd/internal/gate/mergejq.go:163-210 | swapping the arguments flips the sign |
| `JqOrder.JqTransitive` | research-sdd/rsdd/internal/gate/mergejq.go:163-210 | less-or-equal chains, through nested values |
| `JqOrder.SortedKeys` | research-sdd/rsdd/internal/gate/mergejq.go:232-239 | the keys of an object in ascending order, each once |
| `Orders.CompareIsTotalOrder` | research-sdd/rsdd/internal/gate/mergeci.go:91 | string comparison is a total order |
| `Orders.CompareIsLexicographic` | research-sdd/rsdd/internal/gate/mergejq.go:163-230 | comparing strings is the lexicographic order of their characters, a proper prefix first |
| `Grouping.SortedSplitIsClasses` | research-sdd/rsdd/internal/gate/mergeci.go:76-88 | a stable sort followed by the adjacent split cuts any list into exactly its classes, each in listing order |
| `StableSort.SortStable` | research-sdd/rsdd/internal/gate/mergeci.go:78 | sorting keeps the listing order among elements that compare equal |
| `StableSort.SortSorted` | research-sdd/rsdd/internal/gate/mergeci.go:78 | the sorted list is sorted |
| `StableSort.SortPermutes` | research-sdd/rsdd/internal/gate/mergeci.go:78 | sorting permutes |
| `CiRuns.GroupsAreClasses` | research-sdd/rsdd/internal/gate/mergeci.go:76-88 | the groups are exactly the (name, app id) classes |
| `CiRuns.CiGroup` | research-sdd/rsdd/internal/gate/mergeci.go:76-88 | the loop over the sorted copy builds those groups |
| `CiRuns.CiLatest` | research-sdd/rsdd/internal/gate/mergeci.go:99-107 | the highest id, the last listed among equal ones |
| `CiRuns.CiNormalize` | research-sdd/rsdd/internal/gate/mergeci.go:111-122 | the latest run of every group in group order, and a note for every superseded cancelled run |
| `CiRuns.NotesExactly` | research-sdd/rsdd/internal/gate/mergeci.go:109-122 | the notes name exactly the cancelled runs that are not the latest of their class, each with the one that is |
| `CiRuns.LatestIsTopOfEveryClass` | research-sdd/rsdd/internal/gate/mergeci.go:97-122 | with distinct ids in a class, the latest list holds exactly the run of highest id of every class |
| `CiRuns.LatestIgnoresListing` | research-sdd/rsdd/internal/gate/mergeci.go:111-122 | with distinct ids in a class, any permutation of the runs gives the same latest list |
| `CiGate.GreenIff` | research-sdd/rsdd/internal/gate/mergeciverdict.go:14-46 | the verdict is green if and only if something ran, everything that ran is completed and passed, and every required name ran and only succeeded |
| `CiGate.CiVerdict` | research-sdd/rsdd/internal/gate/mergeciverdict.go:14-46 | the scan returns the one verdict that the runs deserve: failed, with the names of the failed runs, before pending, skipped and missing, and each of these only when nothing before it applies |
| `CiGate.JudgeDeserved` | research-sdd/rsdd/internal/gate/mergeciverdict.go:14-46 | over the runs: failed if and only if some run is completed and not passed; pending if and only if none failed and some run is not completed or none was reported; skipped and missing likewise, green last; each with exactly the names it is about, in ascending or in required order |
| `CiGate.CiAbsent` | research-sdd/rsdd/internal/gate/mergeci.go:139-147 | the required names without a run, in the required order, duplicates kept |
| `CiGate.UniqueSorted` | research-sdd/rsdd/internal/gate/mergeci.go:159-169 | the distinct names in ascending order |
| `CiGate.PfTree` | research-sdd/rsdd/internal/gate/mergepf.go:296-372 | the loop over the workflows of one tree computes the tree's result |
| `CiGate.TallyMeaning` | research-sdd/rsdd/internal/gate/mergepf.go:307-371 | what the loop has tallied is a statement about all workflows, not about their order |
| `CiGate.PfEval` | research-sdd/rsdd/internal/gate/mergepf.go:378-402 | skipped only when both trees skip, and never with a change under .github/workflows |
| `ChangedFiles.ListFiles` | research-sdd/rsdd/internal/gate/mergefinish.go:190-203 | the captured listing of the names of all entries, old names of renames included, and the number of entries |
| `ChangedFiles.SurvivorIsHit` | research-sdd/rsdd/internal/gate/mergefinish.go:190-203 | a name at most one line of which holds a character that patterns can spell, and which is not newlines only, is hit by every accepted pattern that matches it |
| `ChangedFiles.SafeExactly` | research-sdd/rsdd/internal/gate/mergefinish.go:190-203 | for every other name some accepted pattern matches it and hits no line of a listing that holds it: the condition is exact |
| `ChangedFiles.TornIsMissed` | research-sdd/rsdd/internal/gate/mergepf.go:350-371 | for a name with two such lines, the pattern that spells its spellable characters with a star around each matches the name and none of its lines |
| `CiGate.TreeSkipSound` | research-sdd/rsdd/internal/gate/mergepf.go:296-372 | a tree that skips on the captured listing has every workflow parsed, some carrier, and every carrier listing only supported patterns that match none of the changed files' names, if those survive the listing |
| `CiGate.RemoveNames` | research-sdd/rsdd/internal/gate/mergefinish.go:152-167 | every occurrence of every listed name is removed, the rest kept in order |
| `CiGate.CiGate` | research-sdd/rsdd/internal/gate/mergefinish.go:89-138 | the gate step by step, through the captured listing of absent names, judges against the reduced required set |
| `CiGate.GateIsSound` | research-sdd/rsdd/internal/gate/mergefinish.go:89-148 | a merge let through has runs, all passed, and every required name either only succeeded or never ran and is rightly exempt in head and base for the changed files by name, if no name is harmed by the listing |
| `CiGate.GateOpensExactly` | research-sdd/rsdd/internal/gate/mergefinish.go:89-148 | the gate opens when it should: for names free of newlines and NULs and patterns that do not spell the placeholder, it is green if and only if something ran, all of it passed, and every required name either only succeeded or never ran and is rightly exempt |
| `CiGate.TreeSkipsExactly` | research-sdd/rsdd/internal/gate/mergepf.go:296-372 | under the same condition on patterns a tree skips a check if and only if every workflow can be read, some carry the check, and all that do list only supported patterns that match none of the files |
| `CiGate.GateSafeExactly` | research-sdd/rsdd/internal/gate/mergefinish.go:89-148 | exactly the harmless names keep the gate sound: for every other name there is a repository with one workflow for which the gate lets a required check be skipped wrongly |
| `CiGate.NewlineName` | research-sdd/rsdd/internal/gate/mergefinish.go:89-148 | one such input: a changed file named x, newline, y, and a workflow that lists the pattern `x*y` |
| `PathGlob.GlobRENeverMisses` | research-sdd/rsdd/internal/gate/mergepf.go:265-277 | the expression built for an accepted pattern matches whatever the pattern matches |
| `PathGlob.GlobREExact` | research-sdd/rsdd/internal/gate/mergepf.go:253-277 | the emulation is exact if and only if the accepted pattern does not itself spell the placeholder `@@DS@@` |
| `PathGlob.PlaceholderOvermatches` | research-sdd/rsdd/internal/gate/mergepf.go:273-275 | for every accepted pattern that does spell it there is a path the expression matches and the pattern does not |
| `PathGlob.PlaceholderIsAccepted` | research-sdd/rsdd/internal/gate/mergepf.go:253-277 | the pattern `@@DS@@` itself is accepted, and its expression matches `x`, which it does not |
| `Text.SplitJoin` | research-sdd/rsdd/internal/gate/mergefinish.go:104 | splitting undoes joining when no part holds the separator |
| `Text.JoinSplit` | research-sdd/rsdd/internal/gate/mergefinish.go:104 | joining undoes splitting |
| `Text.CapturedNames` | research-sdd/rsdd/internal/gate/mergefinish.go:96-104 | names free of newlines and NULs, none empty, come back from the captured listing as they were |
| `SquashfsScan.ValidIsSound` | research-sdd/rsdd/internal/formats/squashfs.go:49-90 | the test accepts exactly the sound superblocks: log from 12 to 20, block its power, used above 96 and within the file, every table inside, although neither the log range nor used > 96 is checked |
| `SquashfsScan.WrittenIsFound` | research-sdd/rsdd/internal/formats/squashfs.go:49-90 | a superblock written byte by byte as the format lays it out is read back field by field, and is taken for one if and only if it is sound |
| `SquashfsScan.BlockBoundsLog` | research-sdd/rsdd/internal/formats/squashfs.go:69-73 | for every 16-bit log, with the shift as the machine does it, the block bounds hold if and only if log is from 12 to 20 |
| `SquashfsScan.FindSquashfsOffset` | research-sdd/rsdd/internal/formats/squashfs.go:95-123 | the scan by 1 MiB chunks with 3 bytes of overlap returns the smallest offset in the whole file with a valid superblock, and none if and only if there is none |
| `SquashfsScan.NotSkipped` | research-sdd/rsdd/internal/formats/squashfs.go:97-118 | a window misses no candidate that starts in its chunk |
| `LintUnits.ScanFences` | research-sdd/rsdd/internal/lint/engine.go:60-85 | the fenced lines are exactly those from an opener to the first line that closes it, and the one unclosed fence is reported |
| `LintUnits.ExtractUnits` | research-sdd/rsdd/internal/lint/engine.go:98-154 | the units partition the document: in increasing order they cover every unfenced, non-blank, non-separator line, each exactly shaped |
| `LintUnits.CoveredOnce` | research-sdd/rsdd/internal/lint/engine.go:98-154 | a line lies in a unit if and only if it is a content line, and in one only |
| `LintUnits.UnitEnd` | research-sdd/rsdd/internal/lint/engine.go:332-345 | the second scanner stops at the last line before one that breaks the unit |
| `LintUnits.EndsAgree` | research-sdd/rsdd/internal/lint/engine.go:332-345 | for every unit of the document that is the unit's last line |
| `LintUnits.Waived` | research-sdd/rsdd/internal/lint/engine.go:322-330 | a unit is waived if and only if a waiver of the rule stands on one of its lines |
| `LintUnits.WaiverSilencesOne` | research-sdd/rsdd/internal/lint/engine.go:322-330 | a waiver silences at most one unit, and one if and only if it stands on a content line |
| `FrameChecksum.ModbusIsResidue` | research-sdd/rsdd/internal/serial/framechecksum.go:31-44 | the little-endian Modbus test hits if and only if the CRC of body and stored bytes is 0 |
| `FrameChecksum.CcittIsResidue` | research-sdd/rsdd/internal/serial/framechecksum.go:46-59 | the big-endian CCITT test hits if and only if the CRC of body and stored bytes is 0 |
| `FrameChecksum.BitInjective` | research-sdd/rsdd/internal/serial/framechecksum.go:36-40 | the bit step of either CRC loses nothing |
| `FrameChecksum.BitsInjective` | research-sdd/rsdd/internal/serial/framechecksum.go:35-41 | nor does any number of them |
| `FrameChecksum.SumIsResidue` | research-sdd/rsdd/internal/serial/framechecksum.go:13-21 | the two's-complement test hits if and only if the byte sum of the whole is 0 modulo 256 |
| `FrameChecksum.XorIsResidue` | research-sdd/rsdd/internal/serial/framechecksum.go:23-29 | the xor test hits if and only if the xor of the whole is 0 |
| `FrameChecksum.SumAdds` | research-sdd/rsdd/internal/serial/framechecksum.go:13-19 | the byte sum is the one function that is additive over concatenation and takes a single byte to itself |
| `FrameChecksum.XorIsParity` | research-sdd/rsdd/internal/serial/framechecksum.go:23-29 | a bit of the xor is set if and only if an odd number of bytes have it |
| `FrameChecksum.Crc16` | research-sdd/rsdd/internal/serial/framechecksum.go:31-59 | the loops over bytes and bits return the one number that is the CRC: the remainder of the message bits, 16 zeros appended and the first 16 bits inverted, divided over GF(2) by x^16+x^15+x^2+1 (bits low first) or by x^16+x^12+x^5+1 (bits high first) |
| `FrameChecksum.OfIsCrc` | research-sdd/rsdd/internal/serial/framechecksum.go:31-59 | a number is that remainder if and only if it is what the register holds |
| `FrameChecksum.CheckValues` | research-sdd/rsdd/internal/serial/framechecksum.go:31-59 | over `123456789` the checksums are the published 0x4B37 and 0x29B1 |
| `Gf2.FeedDivides` | research-sdd/rsdd/internal/serial/framechecksum.go:35-41 | a register fed bit by bit divides: what it holds is the remainder of the message with its start value added at the top |
| `Gf2.RemainderUnique` | research-sdd/rsdd/internal/serial/framechecksum.go:35-41 | a polynomial has only one remainder by a divisor |
| `FrameChecksum.TestOneByte` | research-sdd/rsdd/internal/serial/framechecksum.go:85-96 | counts the frames with a body after the skip, and the hits among them |
| `FrameChecksum.TestTwoByte` | research-sdd/rsdd/internal/serial/framechecksum.go:99-116 | counts the frames long enough, and the hits in the given byte order |
| `FrameChecksum.ModbusCandidate` | research-sdd/rsdd/internal/serial/framechecksum.go:69-76 | Modbus is a candidate if and only if some frame is useful and every useful frame has residue 0 |
| `FrameChecksum.CcittCandidate` | research-sdd/rsdd/internal/serial/framechecksum.go:69-76 | CCITT is a candidate if and only if some frame is useful and every useful frame has residue 0 |

## Left out

- Child processes, git, gh, locks, signals, retries and timeouts: they appear as oracles of time, or not at all.
- `mergetrainexec.go`: the receipt's JSON, interrupts and the removal of worktrees and refs; the end state, the rows and what
  each end state promises are modelled. Argument checks of `run` before the first fetch reduce to the check for repeats.
- ZipPublish.ValidateTree: checks the sets only; ownership, mode bits and link counts of what the run itself has created are
  operating-system state and not in the model of a tree.
- ZipPublish.Publish: the report's JSON, the launcher's identity, the secret-like argument test and the manifest's contents are
  a parameter, the paperwork for the accepted entries; the caps on the input and the final rename are left out.
- ZipExtract.ExtractStored: limits of the file system are not modelled, so its exactness is that of a file system without them:
  a component of more than 255 bytes passes the inspection, whose cap is on the whole path, and then fails at `Mkdir` or
  creation. The same holds for `ZipExtract.StoredRun` and `ZipPublish.Publish`. `ZipExtract.Stage` models only what `Mkdir`,
  exclusive creation, writing and removal do to a tree of directories and files.
- Name decoding (`zipDecodeUTF8Replace`, `zipDecodeCP437`), the name markers of the metadata report and the duplicate marker:
  they report and decide nothing; decoding is a parameter of the inspection.
- Read errors other than a short read in `zipread.go`, and readers that change between reads: a file is one byte sequence.
- DEFLATE and SHA-256; CRC-32 is any byte-wise fold.
- `pfScanWorkflow`, `awkVar`, `parseCheckRuns`, `ciRequired` and the JSON decoding of `mergejq.go`: text formats. A workflow's
  scan is any function of its tree, path and check name.
- Parsing of the QNX6 superblock and the output of the list and extract commands.
- The regular expressions of the lint packs and waiver parsing: a line carries what its patterns say.
- File names in the listing of changed files that are not JSON strings; a name is any sequence of characters.
- Message wording; errors are constructors. The notes of the gate are modelled as data, not as text.
- The conversion between Go strings and runes: text is a sequence of characters or code points.
- CiGate.CiGate: a check name or workflow path that contains a newline is judged as the lines the listing tears it into, as in
  the code; no claim is made that such a name can be exempted.
- CiGate.GateOpensExactly: needs check names and changed files free of newlines and NULs, and no pattern that spells the
  placeholder; for all others only `CiGate.GateIsSound` holds, and a merge may be refused that could be let through.
- CiRuns.LatestIgnoresListing: needs distinct ids within a class, because with equal ids the code takes the one listed last.
- QnxWalk.WalkVisitsReachable: needs a walk that was not truncated, because a directory first met below the depth cap may be
  reachable by a shorter way as well.
- `slices.SortFunc` on spans is modelled by the stable sort; the result of the check does not depend on ties.
