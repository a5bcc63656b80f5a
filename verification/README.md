# A verified model of foldyard's host-side state

foldyard keeps a development box at arm's length: the box may rewrite its checkout at any moment,
while the host decides which configuration it runs, which hosts the box may reach and which
credential switches are on. This project models the parts of foldyard in which that decision is
kept as state, and proves what they promise about every run.

`dafny verify dfyconfig.toml` checks everything.

| module | what it models |
|---|---|
| `AdoptionProtocol` | The adopted configuration as a step system: one host command at a time (adopt, revert, forget), a reader without a lock, a box editing the tree, a crash between any two file operations. |
| `AdoptionStore` | The same host commands as methods that run to their end, the prune with its sort, and the settling of drift. |
| `AdoptionRuns` | Runs of the step system built from its actions: the commands left alone do what the methods do, and reads break exactly where they can. |
| `Digest` | The byte stream behind a file set's fingerprint. |
| `LineScanner` | The line-by-line TOML scanner that decides which changed lines an operator is shown. |
| `AllowStore`, `AllowRuns`, `LearnedHosts` | The egress allow-store, its cached effective file, every run of its operations with deaths between their two writes, and the review of a learn window. |
| `ArrayText` | Finding the end of a TOML array in text and appending entries to it. |
| `BuildTokens` | The build-secret file, read and rewritten under a lock by processes that may die anywhere. |
| `ModeState` | Switch levels with expiries, and the cascade that settles an incoherent posture. |
| `ConfigMerge`, `Overrides` | Deep merge, subtraction and renaming of TOML documents; flattening a table to dotted-path overrides. |
| `ComposeScan`, `ComposeReport` | The walk over compose files that include and extend each other, and what it reports and follows, said of the documents. |
| `Attribution` | Resolving an address by the snapshots around a time, and the time-free key of a stamp. |

## What is proved, and what is not so

Several promises hold only under a condition. Each is proved with its exact condition or with a
witness that the condition is needed.

* From a state at rest, every later read of the adopted copy gets one adoption's files whole, given at
  most one switch, no forget and no adoption stopped half-way, exactly when the selected generation is
  the newest on disk. The comments on `adopt` and `_prune_generations` promise this without the last
  condition. A newer stray is left by an adoption that dies between its rename and its marker write,
  and also by one that dies while it prunes, or whose deletions fail half-way, which it passes over:
  removing a file touches the directory, so the half-deleted generation becomes the newest. Two
  switches, or a forget, can break a read from every state with an adoption.
* The configuration the host computes from such a read is, under the same condition, the empty one or
  that of one whole file set one adopt call read. For a read that nothing interleaves with this holds
  with no condition on crashes or edits.
* A revert keeps the last contents of a file it removes exactly when they are those the revert read,
  so always when the box left the file alone; its documentation says the file is moved aside. A run
  that loses an edit is given.
* The lines a review is shown carry everything the text does exactly when no line that starts outside
  a multi-line string ends in space inside a string.
* Deep merge is associative exactly when no table hidden by a non-table resurfaces.
* Overrides mean the same as the merge exactly when no sub-table is empty. A printed key reads back
  exactly when it has no character beyond U+FFFF, which the printer writes as two surrogate escapes.
* A process that dies between saving the allow-store and writing the effective file leaves the two
  apart. For every operation it is shown exactly when the next sweep, however much later, brings them
  together; after a revoke of a live grant it does only if by then the window has ended or another
  live grant has expired.
* A stamp's key resolves as the stamp does, in every log, exactly when the stamp is not of a bridge with
  a space in its name.

Which answer, which file, which neighbour or which seed decides is said in plain values throughout: the
words an operator types, the seconds a grant or a level lasts, the local file before the shared one,
the values of a compose document, the snapshots either side of a time.

Times are whole seconds and never go back. Hashing is an arbitrary function; where a fingerprint is
compared it is assumed to have no collisions.

## Model

| member | source | states |
|---|---|---|
| AdoptionProtocol.SurvivesPruneExactly | src/foldyard/configpin.py:633-649 | A generation outlives a prune if and only if it is the one kept or the newest of the others. |
| AdoptionProtocol.InvReached | src/foldyard/configpin.py:656-758 | In every possible run: the selected generation holds exactly what its adoption read, reviewed adoptions hold what was shown, stamps are distinct, and a safe pass stands on protected files. |
| AdoptionProtocol.PassSeesOneAdoption | src/foldyard/configpin.py:450-484 | By what a pass itself met: with at most one switch, no forget and no newer stray at that switch, it returned exactly the files its generation's adoption read (those shown, if reviewed), and nothing only if nothing was adopted. |
| AdoptionProtocol.CarefulPassSeesOneAdoption | src/foldyard/configpin.py:704-734 | By the disk it began from: at rest with the selected generation the newest, whatever the history, every later pass is so while no adoption is stopped between rename and marker write or short of its prune. |
| AdoptionRuns.PassesAreWholeExactly | src/foldyard/configpin.py:633-649 | At every reachable rest: the passes to come return the files of their adoption, given at most one switch, no forget and no stopped adoption, if and only if the selected generation is the newest on disk. |
| AdoptionRuns.StrayBreaksFromRest | src/foldyard/configpin.py:641-649 | From every reachable rest with a newer stray, one undisturbed adoption inside a pass makes it return something else. |
| AdoptionRuns.TwoSwitchesBreakFromRest | src/foldyard/configpin.py:633-649 | From every reachable rest with an adoption, stray or not, two undisturbed adoptions inside a pass can break it. |
| AdoptionRuns.ForgetBreaksFromRest | src/foldyard/configpin.py:740-758 | From every reachable rest with an adoption, a forget inside a pass can break it. |
| AdoptionProtocol.NewestStep | src/foldyard/configpin.py:704-734 | Short of such deaths, every action keeps the selected generation the newest, but for one just renamed or those being deleted. |
| AdoptionRuns.StrayBreaksAPass | src/foldyard/configpin.py:713-734 | A concrete run, with no edit and one switch, in which a death between rename and marker write makes a pass return files no adoption read. |
| AdoptionRuns.HalfPrunedStrayBreaksAPass | src/foldyard/configpin.py:641-649 | The same for a death inside a prune. |
| AdoptionRuns.TwoSwitchesBreakAPass | src/foldyard/configpin.py:633-649 | Two switches inside one pass break it with no death at all. |
| AdoptionRuns.ForgetBreaksAPass | src/foldyard/configpin.py:740-758 | A forget inside a pass breaks it although the marker goes first. |
| AdoptionProtocol.EffectiveIsOneAdoption | src/foldyard/configpin.py:583-603 | Of a read that nothing interleaves with: after every interleaving of commands, edits and crashes it finds the empty configuration or that of one complete file set a single adopt call read, byte for byte what was shown when that call carried a review. |
| AdoptionProtocol.PassConfigIsOneAdoption | src/foldyard/configpin.py:583-603 | Of the read as it is, file by file without a lock: from rest with no stray, a pass with at most one switch and no forget yields the empty configuration or that of one complete file set a single adopt call read, and of what was shown. |
| AdoptionProtocol.EffectiveTakesLocalFirst | src/foldyard/configpin.py:190-195 | Which configuration that is, setting by setting and for any parser: of the files the selected adoption read, the local file's value where it has one, the shared file's where the local one is absent, empty or silent, nothing where neither has any; below the top, unless a table above is marked disabled. |
| AdoptionProtocol.PassConfigTakesLocalFirst | src/foldyard/configpin.py:190-195 | The same of the configuration a finished pass computes, file by file without a lock. |
| AdoptionProtocol.OnlyTheMarkerChangesEffective | src/foldyard/configpin.py:583-603 | What a read that nothing interleaves with finds is changed by the marker's switch or removal and by no edit, staging, prune, revert, crash or other read. |
| AdoptionProtocol.StaleReviewStopsExactly | src/foldyard/configpin.py:688-703 | An adopt goes no further and changes nothing if and only if main's copy has moved or the tree it read is not the one shown. |
| AdoptionProtocol.AdoptedFilesWereInTree | src/foldyard/configpin.py:149-159 | Each adopted file, and each file on its way, is byte for byte one the tree held at some moment of the run. |
| AdoptionProtocol.RemovedFileIsKeptExactly | src/foldyard/configpin.py:785-798 | A file a revert removes is in the kept copy if and only if the tree still holds what the revert had read. |
| AdoptionProtocol.RemovedFileIsKeptOverRun | src/foldyard/configpin.py:772-799 | Over every run from a revert's read of a file to its removal: what is kept aside is what the file held when read, so always its last contents when no edit changed it in between. |
| AdoptionRuns.LateEditIsLost | src/foldyard/configpin.py:785-798 | A concrete run, for any two different contents, in which a revert removes what the box wrote last and keeps what it wrote before. |
| AdoptionRuns.AdoptRenames | src/foldyard/configpin.py:704-713 | Left alone, an adopt that is not stale renames a directory holding exactly the tree into place and touches nothing else. |
| AdoptionStore.NewestFirst | src/foldyard/configpin.py:641-645 | All generations, strictly by falling stamp. |
| AdoptionStore.RestIsSuperseded | src/foldyard/configpin.py:648-649 | Of the list without the kept one, everything after the first is exactly what is superseded. |
| AdoptionStore.PruneGenerations | src/foldyard/configpin.py:633-649 | Deletes exactly the superseded generations and leaves the others as they were. |
| AdoptionStore.PruneLeavesTheNewest | src/foldyard/configpin.py:633-649 | Pruning after an adoption leaves, of the earlier generations, the newest and no other. |
| AdoptionStore.StaleUnless | src/foldyard/configpin.py:688-693 | Without collisions a review is stale if and only if the tree is not the one shown. |
| AdoptionStore.Pin.Stage | src/foldyard/configpin.py:704-713 | The new generation holds exactly the tree, absent files staying absent, and is newer than all before it. |
| AdoptionStore.Pin.Adopt | src/foldyard/configpin.py:656-737 | Refused with nothing changed exactly when the tree is not what was shown or main's copy not the one compared with; otherwise the tree is selected and of the earlier generations only the newest survives, unchanged. |
| AdoptionStore.Pin.Forget | src/foldyard/configpin.py:740-758 | Nothing adopted and nothing kept afterwards; says whether there was anything. |
| AdoptionStore.Pin.Revert | src/foldyard/configpin.py:772-799 | Refused exactly when nothing is adopted; otherwise the tree equals the adopted copy, the differing files are named, and files the copy lacks are kept aside. |
| AdoptionStore.Pin.RevertFile | src/foldyard/configpin.py:785-798 | One file's turn: put back, or copied aside and removed, or left alone when equal. |
| AdoptionStore.Pin.Resolve | src/foldyard/configpin.py:830-946 | In the words typed: with a copy adopted, only `a` and `adopt` adopt, only `r` and `revert` revert, and any other answer is ignored with nothing changed; on a first adoption `a`, `adopt` and Enter adopt and any other declines; adopting takes the tree, and on a first adoption main's copy, still being what was shown; without a terminal nothing changes; and what each outcome leaves of selection, generations, tree and kept files. |
| AdoptionStore.NormalizedIsTheWordSpelt | src/foldyard/configpin.py:889-889 | An answer counts as a word if and only if it spells it between space, in capitals or not; for every lower-case word without space at its ends. |
| AdoptionStore.NormalizedIsTrimmedAndLower | src/foldyard/configpin.py:927-927 | What is compared has no capital letter and no space at either end. |
| AdoptionRuns.PruneCompletes | src/foldyard/configpin.py:648-649 | Every reachable prune, left alone, ends with exactly its victims gone. |
| AdoptionRuns.AdoptCompletes | src/foldyard/configpin.py:656-737 | From every reachable rest, an adopt, reviewed or not, that is not stale and is left alone ends as the method does, its generation the newest. |
| AdoptionRuns.RevertCompletes | src/foldyard/configpin.py:772-799 | From every reachable rest with an adoption, a revert left alone ends with the tree equal to the adopted copy and removed files aside. |
| AdoptionRuns.ForgetCompletes | src/foldyard/configpin.py:740-758 | From every reachable rest, a forget left alone ends with nothing adopted and nothing kept, the tree as it was. |
| Digest.EncodeInjective | src/foldyard/configpin.py:162-171 | Two file sets feed the hash the same bytes if and only if they are equal, absent and empty told apart. |
| Digest.FingerprintIdentifies | src/foldyard/configpin.py:162-171 | Without collisions, equal fingerprints if and only if equal file sets. |
| Digest.PartInjective | src/foldyard/configpin.py:166-170 | A file's part can be cut off the stream in one way only. |
| LineScanner.OpenMultilineAfter | src/foldyard/configpin.py:325-372 | The one-line scan returns the delimiter the character automaton is inside after the line. |
| LineScanner.FoldIsOneRun | src/foldyard/configpin.py:325-372 | Folding the one-line scan over lines equals one automaton run over the whole text. |
| LineScanner.Significant | src/foldyard/configpin.py:375-400 | The loop keeps exactly the lines, with tables, that the recursive specification keeps. |
| LineScanner.KeptExactly | src/foldyard/configpin.py:375-400 | A line that starts inside a multi-line string is kept verbatim and heads no table; any other is kept, trailing space off, if and only if it is not blank or comment. |
| LineScanner.KeptLinesCarryTheText | src/foldyard/configpin.py:375-400 | The kept lines carry everything outside comments and outside space between tokens that the text does, if and only if no line that starts outside a multi-line string ends in space inside a string. |
| LineScanner.SameKeptLinesSameText | src/foldyard/configpin.py:375-400 | Two such texts that show the same lines carry the same. |
| LineScanner.QuotedSpaceIsNotShown | src/foldyard/configpin.py:375-400 | Two texts that show the same lines and carry different strings. |
| LineScanner.SignificantIdempotent | src/foldyard/configpin.py:375-400 | Filtering the kept lines again gives the same lines under the same tables. |
| LineScanner.TablesDependOnKeptLines | src/foldyard/configpin.py:375-400 | Two texts with the same kept lines attach the same table to each. |
| LineScanner.StringIsPassed | src/foldyard/configpin.py:325-372 | A string of any of TOML's four kinds, as its escapes and closing quotes allow, is passed over whole, comment signs, brackets and lone quotes in it and all. |
| LineScanner.OpenStringStaysOpen | src/foldyard/configpin.py:331-357 | A long string that has no closing quotes on a line, escaped ones and a trailing backslash aside, is open after it. |
| LineScanner.UnclosedEndsWithLine | src/foldyard/configpin.py:366-370 | A single-line string that is not closed ends with its line. |
| LineScanner.OutsideIsPassed | src/foldyard/configpin.py:358-371 | Outside strings a comment lasts to the end of its line and any other character is passed. |
| LineScanner.NoiseExactly | src/foldyard/configpin.py:89-89 | A line is noise if and only if it is blank up to its end or to a comment sign. |
| LineScanner.SectionExactly | src/foldyard/configpin.py:93-93 | A line is a header if and only if it is brackets around anything without a closing one. |
| LineScanner.StripBounds | src/foldyard/configpin.py:393-397 | Stripping takes off space at both ends, all of it and nothing else. |
| AllowStore.StoreFiles.Prune | src/foldyard/allowlist.py:705-713 | Keeps exactly the entries not expired, and reports a change if and only if one was dropped. |
| AllowStore.StoreFiles.Grant | src/foldyard/allowlist.py:801-841 | The new store, refusal exactly for a build grant over a runtime grant that does not last as long, and the file rewritten unless refused. |
| AllowStore.StoreFiles.Revoke | src/foldyard/allowlist.py:855-864 | A live entry of the host goes, and expired entries with it; otherwise the store stays; the file is rewritten either way. |
| AllowStore.StoreFiles.ClearEphemeral | src/foldyard/allowlist.py:867-874 | Only live permanent grants remain; the file is rewritten. |
| AllowStore.StoreFiles.CloseWindow | src/foldyard/allowlist.py:287-296 | An open or lapsed window becomes the record of what was observed, ending when it lapsed or now. |
| AllowStore.StoreFiles.SetWall | src/foldyard/allowlist.py:263-275 | Enforcement as asked, any window closed, the file rewritten. |
| AllowStore.StoreFiles.StartLearning | src/foldyard/allowlist.py:319-336 | A window of one second to eight hours that reaches back over everything unreviewed, enforcement stored behind it. |
| AllowStore.StoreFiles.SeedLearning | src/foldyard/allowlist.py:371-395 | Opens a window if and only if the project asks to learn and the store has never answered. |
| AllowStore.StoreFiles.Sweep | src/foldyard/allowlist.py:1052-1075 | Changes store and file if and only if an entry or a window lapsed. |
| AllowStore.GrantAllows | src/foldyard/allowlist.py:801-841 | A grant that is made allows its host in its own scope only, a `once` grant for the seconds asked or 120 and any other without end, leaves every other host alone and withdraws a decline. |
| AllowStore.RevokeDisallows | src/foldyard/allowlist.py:855-864 | Until it is granted again a revoked host is in neither list; others and enforcement are untouched. |
| AllowStore.ClearKeepsPermanent | src/foldyard/allowlist.py:867-874 | Exactly the permanent grants stay in the lists. |
| AllowStore.WallStaysAsSet | src/foldyard/allowlist.py:263-275 | Enforcement is as set from then on, and an open window stays to be reviewed up to now. |
| AllowStore.LearningSuspends | src/foldyard/allowlist.py:319-336 | Enforcement is off for what was asked, at least a second and at most eight hours, and on after it. |
| AllowStore.ReviewSettlesWhatWasSeen | src/foldyard/allowlist.py:358-368 | After a review, a window opened later starts afresh if the one before had ended, at the review if it was still open, and not before what the review covered. |
| AllowStore.AnswersAreNotEnforced | src/foldyard/allowlist.py:895-908 | A decline and a review change nothing the proxy reads, then or later, nor the window to be reviewed. |
| AllowStore.FateInStore | src/foldyard/allowlist.py:867-874 | A grant's fate through waiting, sweeping and clearing does not depend on the rest of the store. |
| AllowStore.SweepsExactly | src/foldyard/allowlist.py:1052-1075 | A sweep has something to write if and only if an entry has expired or a window has ended; it drops those entries, keeps that window for review, and touches nothing else. |
| AllowStore.LastsAsLongExactly | src/foldyard/allowlist.py:844-852 | The comparison holds if and only if in every future the current grant is live whenever the requested one would be. |
| AllowStore.BuildGrantNarrowsNothing | src/foldyard/allowlist.py:815-836 | A build grant leaves every live runtime grant as it was and covers builds as long as asked, or is refused with the store unchanged, exactly when some future needs it to be. |
| AllowRuns.Perform | src/foldyard/allowlist.py:801-874 | The store's methods are exactly the steps the runs are made of. |
| AllowRuns.NoObservationLost | src/foldyard/allowlist.py:308-368 | In every run, deaths between writes included, each second a window was open is reviewed or inside the window the next review reads. |
| AllowRuns.OpenSecondIsAccountedFor | src/foldyard/allowlist.py:319-368 | A second at which a window is open anywhere in a run is, at the run's end, reviewed or inside the window the next review reads. |
| AllowRuns.WindowAlwaysBounded | src/foldyard/allowlist.py:319-336 | In every run an open window ends within eight hours of being opened, with enforcement stored. |
| AllowRuns.SeedOpensOnce | src/foldyard/allowlist.py:371-395 | In every run the first-run seed opens a window at most once, by count and by the moves at which there was no window before and is one after. |
| AllowRuns.EnforcementResumes | src/foldyard/allowlist.py:238-260 | Past a window's deadline enforcement is on, through any steps but switching it off or another window. |
| AllowRuns.SeedDecidesUntilAnswered | src/foldyard/allowlist.py:257-260 | In every run in which nobody has set the wall, started a window or launched under `learn`: it enforces for `on` and `learn` and not for `off`, and every file written says so. |
| AllowRuns.AnswerOutlivesTheSeed | src/foldyard/allowlist.py:263-275 | Once set, in any run, enforcement and every later file are as set, whatever the seed, until it is set again or a window is started. |
| AllowRuns.LearningSuspendsExactly | src/foldyard/allowlist.py:319-336 | In any run a window suspends enforcement for exactly the seconds asked, at least one and at most 28800, or 3600 when the first launch opens it; each file written meanwhile says what held then. |
| AllowRuns.GrantStandsExactly | src/foldyard/allowlist.py:801-841 | In any run a granted host is allowed, for its scope and no other, exactly while its grant is good: `once` for the seconds asked or 120, other levels without end; through all that neither grants nor revokes it nor clears its entry. |
| AllowRuns.FileIsStoreAtLastWrite | src/foldyard/allowlist.py:765-778 | In every run, the file equals what the current store meant at the file's last write, unless a process has died since between saving the store and writing the file. |
| AllowRuns.SweepMakesFileCurrent | src/foldyard/allowlist.py:1052-1075 | After a sweep such a file equals the effective allowlist of that moment, even when nothing was written. |
| AllowRuns.SweepMendsExactly | src/foldyard/allowlist.py:1052-1075 | From any state with a file, torn or not, a sweep leaves the file current if and only if something has lapsed in the store or the file already was. |
| AllowRuns.SweepAtOnceMendsExactly | src/foldyard/allowlist.py:801-874 | The operator's condition, operation by operation, for a sweep in the same second as the death. |
| AllowRuns.TornOperationMendsExactly | src/foldyard/allowlist.py:1052-1075 | In every run, for every operation: after a death between its two writes, the next sweep, whatever time, declines and reviews come first, leaves the file current if and only if a condition holds that the operator can read off store and file before the operation, or something left in the store has lapsed by the sweep. |
| AllowRuns.TornRevokeMendsExactly | src/foldyard/allowlist.py:855-864 | For a revoke: if and only if the host held no live grant, or by the sweep the window has ended or another grant that was live has expired. |
| AllowRuns.FileDiffersOnlyByLapses | src/foldyard/allowlist.py:765-778 | Between sweeps the file differs from the store only by grants or a window that lapsed since it was written. |
| AllowRuns.SweepIsInvisible | src/foldyard/allowlist.py:1052-1075 | A sweep changes nothing any reader sees, then or later. |
| AllowRuns.InterruptedRevokeOutlivesSweep | src/foldyard/allowlist.py:855-864 | A run from an empty store in which it is not: the revoked host is still in the file after the sweep. |
| LearnedHosts.ReviewHosts | src/foldyard/allowlist.py:479-534 | One entry per qualifying host in first-seen order, with its count and its first and last time. |
| LearnedHosts.ReviewCountsExactly | src/foldyard/allowlist.py:479-534 | Row by row, the rows counted for a host are exactly those refused in the window, if it can be granted, is not local and is not answered for; it is listed if and only if there is one. |
| LearnedHosts.ReviewMissesNothing | src/foldyard/allowlist.py:479-534 | In every run, an unanswered host logged in an unreviewed open second is in the review of the last window. |
| LearnedHosts.MatchesExactly | src/foldyard/allowlist.py:398-403 | A host is covered if and only if it is granted itself or ends in a dot and what follows it in a granted `*.` pattern. |
| LearnedHosts.GrantedHostIsInNoReview | src/foldyard/allowlist.py:479-534 | A granted host and a host under a granted `*.suffix` are in no review; `*.suffix` does not cover `suffix`. |
| LearnedHosts.DeclineDropsExactlyOne | src/foldyard/allowlist.py:895-908 | Until it is granted again a declined host is in no review, and no other host leaves or joins one by the decline; declining `*` answers for all. |
| LearnedHosts.GrantWithdrawsDecline | src/foldyard/allowlist.py:833-840 | A grant that is made leaves no trace of a decline of its host: the store is the one without it. |
| ArrayText.ArrayBounds | src/foldyard/allowlist.py:601-634 | The scan terminates with what the character automaton finds. |
| ArrayText.SkipString | src/foldyard/allowlist.py:614-624 | Skipping a string, escapes and both triple quotes included, is the automaton's way through it. |
| ArrayText.BoundsMeaning | src/foldyard/allowlist.py:601-634 | The result is the first bracket that balances outside strings and comments and the last significant character before it; nothing if none balances. |
| ArrayText.StringIsSkipped | src/foldyard/allowlist.py:614-624 | A string of any of TOML's four kinds is skipped whole, brackets, comment signs and line ends in it and all, its closing quote the last significant character. |
| ArrayText.BetweenStrings | src/foldyard/allowlist.py:625-633 | Brackets change the depth and the one that closes the first ends the scan; space counts for nothing, anything else is significant. |
| ArrayText.CommentIsSkipped | src/foldyard/allowlist.py:609-613 | A comment is skipped with its line end and counts for nothing. |
| ArrayText.OldTextStays | src/foldyard/allowlist.py:684-692 | The old text stays around the entries: lines of their own above a bracket alone on its line, otherwise after the last significant character; a comma before them unless the array is empty or has one. |
| ArrayText.BlockSnoc | src/foldyard/allowlist.py:661-661 | Each entry of a block is a line of its own, indented and with a comma. |
| ArrayText.InlineSnoc | src/foldyard/allowlist.py:687-687 | Inline entries are separated by a comma and a space. |
| ArrayText.InsertedEntriesFollow | src/foldyard/allowlist.py:678-692 | After either shape of insertion the array still closes at its own bracket and its elements are the old ones followed by the new. |
| ArrayText.ItemIsWellFormed | src/foldyard/allowlist.py:659-660 | An entry with clean host, reason and scope is one element of its own. |
| ArrayText.ItemReadsBack | src/foldyard/allowlist.py:659-660 | Its strings read back as the host, the reason, and the scope if there is one, in that order. |
| BuildTokens.UpdatedText | src/foldyard/buildgate.py:91-113 | The new file holds the unexpired old tokens with the one change made. |
| BuildTokens.LiveExactlyWhenIssued | src/foldyard/buildgate.py:78-130 | For any interleaving with crashes, a token reads as live if and only if it was issued, is not revoked and has not expired. |
| BuildTokens.ReaderSeesWholeFile | src/foldyard/buildgate.py:104-113 | A reader without the lock finds no file or a whole one of issued, unrevoked tokens. |
| BuildTokens.MutualExclusion | src/foldyard/buildgate.py:78-88 | Two processes are never in the critical section together. |
| BuildTokens.TokensLiveAtMostTheirTtl | src/foldyard/buildgate.py:116-125 | A token left behind stops reading as live once its lifetime is over. |
| BuildTokens.TokenLivesExactly | src/foldyard/buildgate.py:116-135 | A token whose issue was completed reads as live for exactly 21600 seconds from when the issue began unless a revocation is asked for; one whose revocation was completed never does again. |
| ModeState.ReadLevels | src/foldyard/devmode.py:196-201 | Every switch at its recorded level, invalid and unknown ones aside. |
| ModeState.DropLapsed | src/foldyard/devmode.py:202-208 | Exactly the switches whose expiry has passed or does not parse go back to rest and lose it. |
| ModeState.ApplyUpdates | src/foldyard/devmode.py:316-321 | Each update sets its switch; it carries an expiry afterwards if and only if its new level is an emergency one. |
| ModeState.PostureFile.Read | src/foldyard/devmode.py:185-216 | The levels and running expiries a reader sees at a time. |
| ModeState.PostureFile.SetMode | src/foldyard/devmode.py:290-341 | Applied if and only if valid and coherent or forced; the whole new file, or the old one. |
| ModeState.PostureFile.SetFromCommandLine | src/foldyard/devmode.py:2853-2872 | Also refused for nothing to set, a lifetime of no length, or one no level takes. |
| ModeState.OthersUntouched | src/foldyard/devmode.py:312-321 | Setting some switches changes nothing any later reader sees of another. |
| ModeState.ReaderSeesLastSetting | src/foldyard/devmode.py:185-216 | Over every run a reader sees of a switch its own last accepted setting until that expires. |
| ModeState.EmergencyIsBounded | src/foldyard/devmode.py:165-172 | An emergency level shows only before the expiry of its own last arming, at most eight hours after it. |
| ModeState.SettingShowsExactly | src/foldyard/devmode.py:290-341 | An accepted command leaves a posture without errors, and each level it set shows: an emergency level for exactly the seconds asked, 3600 if none were and 28800 at most, any other without end, through all that does not touch the switch. |
| ModeState.ShowsRaisedExactly | src/foldyard/devmode.py:185-216 | For any file: a level above rest shows if and only if the file has it, it is the switch's own, and an expiry, if any, can be read and is still to come. |
| ModeState.RefusedExactly | src/foldyard/devmode.py:2853-2872 | A command is refused if and only if there is nothing to set, the lifetime is not positive or no emergency level takes it, a switch or level is unknown, or the result has errors. |
| ModeState.ExpiryIffEmergency | src/foldyard/devmode.py:315-321 | In every run a switch carries an expiry in the file if and only if its level there is an emergency one. |
| ModeState.FirstHelpfulDowngrade | src/foldyard/devmode.py:421-428 | A switch whose downgrade reduces the errors, or the fact that none does. |
| ModeState.SettleIncoherent | src/foldyard/devmode.py:393-439 | For any error function: terminates, only puts raised switches to rest, never adds errors, ends coherent whenever rest is coherent, and otherwise where no single downgrade helps. |
| ModeState.ExpireUserModes | src/foldyard/supervisor.py:954-978 | After a lapse the posture readers see is coherent whenever rest is, has no more errors than before, and nothing in it was raised. |
| ConfigMerge.MergeIdentity | src/foldyard/config.py:306-317 | The empty document changes nothing on either side. |
| ConfigMerge.MergeIdempotent | src/foldyard/config.py:306-317 | Merging a document over itself changes nothing. |
| ConfigMerge.CoveredMergeIsRight | src/foldyard/config.py:306-317 | The overlay alone results if and only if it says something at every key of the base. |
| ConfigMerge.MergeAssociativeExactly | src/foldyard/config.py:306-317 | Associative if and only if no hidden table resurfaces. |
| ConfigMerge.MergeAssociative | src/foldyard/config.py:306-317 | Associative where no path is a table in one document and a non-table in another. |
| ConfigMerge.MergeNotAssociativeWitness | src/foldyard/config.py:306-317 | Three documents for which the grouping matters. |
| ConfigMerge.PruneLeavesNoMarker | src/foldyard/config.py:330-354 | No boolean marker is left in any table reachable through tables and arrays of tables. |
| ConfigMerge.PruneIdempotent | src/foldyard/config.py:330-354 | Subtracting twice is subtracting once. |
| ConfigMerge.PruneRemovesExactly | src/foldyard/config.py:330-354 | A table survives if and only if neither it nor a table above it is disabled, and keeps all its other entries. |
| ConfigMerge.PlainSurvivesExactly | src/foldyard/config.py:330-354 | A value that holds no table survives if and only if no table above it has `disabled = true` and it is no boolean named `disabled`. |
| ConfigMerge.PruneOneItem | src/foldyard/config.py:346-352 | Of an array of tables exactly the disabled entries go, the others are subtracted from in place. |
| ConfigMerge.PruneItemsAppend | src/foldyard/config.py:346-352 | An array is subtracted from entry by entry, in order. |
| ConfigMerge.DisabledBlocks | src/foldyard/config.py:421-441 | The report lists, once each and as joined paths, exactly the topmost disabled tables of the merge, with whether the local file declares them. |
| ConfigMerge.ReportedNeverNested | src/foldyard/config.py:421-441 | No reported path lies below another. |
| ConfigMerge.JoinedByDots | src/foldyard/config.py:429-441 | A reported path is its keys with a dot between each two. |
| ConfigMerge.RemovedTablesAreReported | src/foldyard/config.py:410-441 | Without renamed keys, the table paths the resolved document loses are exactly those at or below a reported path. |
| ConfigMerge.LocalMarkerDecides | src/foldyard/config.py:330-354 | A table path of the merge survives if and only if at it and at every table above it the local marker, or the shared one where the local file has none, is not `true`; both files taken on the new spellings. |
| ConfigMerge.LocalMarkerDecidesAsWritten | src/foldyard/config.py:330-354 | The same of the files as written, when neither uses an old spelling. |
| ConfigMerge.RenamedEntry | src/foldyard/config.py:374-379 | The old spelling is gone, the new one holds its value unless it had one, all else is unchanged. |
| ConfigMerge.ApplyRenamesIdempotent | src/foldyard/config.py:382-391 | Renaming twice is renaming once. |
| ConfigMerge.RenamedKeys | src/foldyard/config.py:394-407 | The report of both files, in order. |
| ConfigMerge.RenamesIdentityIffUnreported | src/foldyard/config.py:382-407 | Renaming changes nothing if and only if the report is empty. |
| ConfigMerge.LocalSpellingOverrides | src/foldyard/config.py:410-418 | Either spelling in the local file overrides either in the shared one. |
| ConfigMerge.LocalOverShared | src/foldyard/config.py:410-418 | At every path past the renamed keys: the local plain value, or the shared one where the local file is silent, is the resolved one if and only if no table above is marked disabled and it is no marker itself; silence in both is silence. |
| ConfigMerge.LocalOverSharedAtTop | src/foldyard/config.py:410-418 | The same of top-level keys, without condition. |
| ConfigMerge.MergePrecedence | src/foldyard/config.py:306-317 | At every path a plain value of the overlay wins, and the base's stands where the overlay is silent. |
| Overrides.CodexOverrides | src/foldyard/box.py:1789-1803 | Each leaf of the table once and nothing else, each with its printed dotted path. |
| Overrides.OverridesMeanMergeExactly | src/foldyard/box.py:1789-1803 | Applied in any order to every base document they equal the merge, if and only if no sub-table is empty. |
| Overrides.DottedPathReadsBack | src/foldyard/box.py:1783-1786 | The printed path reads back to its segments if and only if none has a character beyond U+FFFF, and never to others. |
| Overrides.SegmentIsPrintedPlainly | src/foldyard/box.py:1783-1786 | A segment is printed as it is if and only if it is a bare key, quoted otherwise, and in printable ASCII either way. |
| Overrides.AstralKeyDoesNotReadBack | src/foldyard/box.py:1783-1786 | A key for which it does not. |
| ComposeScan.AcceptedExactly | src/foldyard/composeguard.py:109-134 | A path is accepted if and only if it is one, literal where it must be, not remote where that matters, and inside from every base. |
| ComposeReport.CheckedExactly | src/foldyard/composeguard.py:109-134 | One check accepts a value if and only if all that is asked of it is met, said without the check's own terms (where a fetched form stands in the text, what a root is continued by), and otherwise gives the first reason in order. |
| ComposeScan.EveryPlaceIsListed | src/foldyard/composeguard.py:57-89 | Every place a service can name a host path in is among its uses, with what it is relative to. |
| ComposeScan.DockerfileFromBuildContext | src/foldyard/composeguard.py:147-158 | A Dockerfile is checked from the accepted build context, and from the file's base if it was refused or left to the render. |
| ComposeScan.EveryUseIsAccountedFor | src/foldyard/composeguard.py:136-161 | Each path a service names is left to the render, reported, or inside from every base, and an extended file inside is handed on. |
| ComposeReport.ServiceReportedExactly | src/foldyard/composeguard.py:57-161 | A service is reported for exactly its refused values: each kind with its own base, Dockerfile and additional contexts from the accepted build context, image references left out, key files read out of `ssh` entries, an extended file literal in any file. |
| ComposeReport.VisitReportedExactly | src/foldyard/composeguard.py:233-267 | An opened file is reported for exactly the values of its document that are to be checked and are not acceptable: every include path, environment file and project directory, every value of every service, every top-level entry. |
| ComposeReport.CleanVisitExactly | src/foldyard/composeguard.py:233-267 | It is clean if and only if all of them are acceptable or, in a file given by name, left to the rendered pass. |
| ComposeReport.NothingToRead | src/foldyard/composeguard.py:218-227 | A path that is no file or cannot be read is reported as that, and what is no table is passed over. |
| ComposeReport.VisitLeadsExactly | src/foldyard/composeguard.py:235-264 | A file hands on exactly the acceptable files its document includes or extends, an included one based where its include asks. |
| ComposeScan.Scanner.Check | src/foldyard/composeguard.py:109-134 | Returns and reports what the specification of one path says. |
| ComposeScan.Scanner.CheckService | src/foldyard/composeguard.py:136-161 | Reports and hands on what the specification says, the build context moving as the uses go. |
| ComposeScan.Scanner.CheckInclude | src/foldyard/composeguard.py:233-251 | One include's problems and targets, rebased as it asks. |
| ComposeScan.Scanner.Open | src/foldyard/composeguard.py:214-267 | One file is opened once more, inside, because it was named; its problems are added, its targets returned. |
| ComposeScan.Scanner.Scan | src/foldyard/composeguard.py:214-271 | Terminates on cycles; what was opened since was opened once each, only inside, and only as given by name or as an earlier file handed it on; its problems and no others were added, and all it hands on is opened too. |
| ComposeScan.Scanner.RawProblems | src/foldyard/composeguard.py:200-276 | Every compose file inside the checkout is opened, the walk is closed, and a problem is reported if and only if it is one of a visit, of a compose file or of the project file that only a link takes out. |
| ComposeReport.IncludesAreSettled | src/foldyard/composeguard.py:233-251 | Each include value of an opened document is refused and reported, or leads inside, to an opened file or to no file. |
| ComposeReport.ExtendsAreSettled | src/foldyard/composeguard.py:252-264 | So does each extended file of an opened document. |
| ComposeScan.ChainsStayOpened | src/foldyard/composeguard.py:268-271 | Whatever a chain of includes and extends reaches from an opened file has been opened. |
| Attribution.BisectRight | src/foldyard/attribution.py:257-257 | The place after everything not later. |
| Attribution.SortedInOrder | src/foldyard/attribution.py:240-241 | In order of time, the same snapshots. |
| Attribution.PlaceHasNeighbours | src/foldyard/attribution.py:255-263 | Either side of that place stand the latest snapshot up to the time, last logged among equals, and the first after it. |
| Attribution.OnlyNeighboursMatter | src/foldyard/attribution.py:255-263 | A snapshot with another between it and the time has no say, wherever it was logged. |
| Attribution.AddressExactly | src/foldyard/attribution.py:255-263 | In the log's own terms: an address resolves to a container if and only if that one alone held it in the snapshots either side of the time, to two if and only if one held it just before and another just after, and to nothing if and only if nobody did. |
| Attribution.BridgeNamesExactly | src/foldyard/attribution.py:265-287 | What a bridge stamp names is that, by the name last claimed; nothing without a readable time. |
| Attribution.ContainerNamesExactly | src/foldyard/attribution.py:288-293 | A container stamp names that container at any time, by the name the latest snapshot claims for it, or by the first twelve characters of its id. |
| Attribution.TimedRecordsStay | src/foldyard/attribution.py:239-241 | Every record with a time is used, in the log's order, and no other. |
| Attribution.Resolver.constructor | src/foldyard/attribution.py:239-253 | Times, holders and claims are those of the sorted log. |
| Attribution.Resolver.AddressOf | src/foldyard/attribution.py:255-263 | Bisection gives what the unsorted log says: a container if and only if it alone held the address around the time, two if and only if one did just before and another just after. |
| Attribution.Resolver.WhoIs | src/foldyard/attribution.py:265-296 | What a stamp of each shape names. |
| Attribution.BridgeKeyReadsBackExactly | src/foldyard/attribution.py:335-366 | A bridge stamp's parts come back from its key if and only if the bridge's name has no space. |
| Attribution.KeyResolvesAsStamp | src/foldyard/attribution.py:335-366 | For stamps of anything but a bridge with a space in its name: at every time a key resolves as its stamp does, forged ones up to their wording. |
| Attribution.KeyResolvesAsStampExactly | src/foldyard/attribution.py:335-366 | A key resolves as its stamp does in every log and at every time if and only if the stamp is not of a bridge with a space in its name. |
| Attribution.OneKeyOneOrigin | src/foldyard/attribution.py:335-366 | Stamps counted under one key resolve alike at every time, if no bridge among them has a space in its name. |

## Left out

- AdoptionProtocol.EffectiveIsOneAdoption: parsing is an arbitrary function of a file's bytes (nothing for a malformed file), so nothing is said about which bytes parse to what.
- AdoptionStore.Pin.Adopt: what a first adoption sets going for a worktree's posture is not modelled; main's copy is a fingerprint given from outside.
- AdoptionStore.Pin.Forget: a pin directory that is itself a link is not modelled.
- AdoptionStore.Pin.Resolve: the report and the notes printed before the prompt are not modelled.
- LineScanner.Significant: starts from lines; the source splits text also at characters such as U+2028, which TOML allows inside a string. The diff of two kept sequences and its locators are not modelled.
- AllowStore.StoreFiles.Grant: host names are taken as given; stripping and validation are not modelled, nor is a store that cannot be read (readers deny, writers refuse).
- AllowRuns.TornOperationMendsExactly: one death after an agreeing file, and no other write before the sweep; for files torn before, SweepMendsExactly speaks. Two writers at once are not modelled.
- LearnedHosts.ReviewHosts: user agents, callers and sample paths of a host are not modelled, and the two predicates on host names are arbitrary.
- ArrayText.InsertedEntriesFollow: the insertion of a missing table or key and the final parse that proves the edit are not modelled; braces in the old text must balance.
- BuildTokens.LiveExactlyWhenIssued: digests never repeat, and the locked file's text format is an arbitrary faithful one.
- ModeState.PostureFile.Read: the mirror in the box is not modelled.
- ModeState.SettleIncoherent: the coherence conclusions are for a posture over exactly the active switches, which is what `read` returns.
- Overrides.DottedPathReadsBack: the reader follows TOML v1.0.0, sections "Keys" and "String", for bare and basic-quoted keys without space around the dots.
- Overrides.CodexOverrides: the printed form of a leaf's value is not modelled.
- ComposeScan.Scanner.Scan: the files hold still during the walk, YAML shapes are already told apart, and edges are those resolved at a file's one visit.
- ComposeScan.Scanner.RawProblems: the second pass, over the rendered document, uses the same checks and is not modelled.
- Attribution.Resolver.WhoIs: reading and de-duplicating the snapshot log is not modelled.
- Digest.FingerprintIdentifies: the cut to sixteen digits counts as part of the hash, which is assumed to have no collisions.
- Generation names and build-secret digests that repeat, two host commands at once, the layout from before generations, and clocks that go back.
- Subprocesses, engines, sockets, the terminal interface, version parsing and changelog slicing.
