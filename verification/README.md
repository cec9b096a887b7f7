# Overlay recompiler: verified model

This project models the parts of the PSX overlay recompiler toolchain where a mistake is
silent: the on-disk shard cache, the evidence that decides which addresses are functions, the
batching of compilations, the manifests that bind a DLL to the bytes it was compiled from, and
a few self-contained decoders. `dafny verify dfyconfig.toml` checks all of it.

| module | what it is about |
|---|---|
| `ShardPair` | the two-file publication transaction: journal, backups, manifest rename, DLL rename; crashes between any two file operations, interrupted recoveries |
| `CacheCapacity` | the inventory of a cache namespace, the projection of a publication, and the bound on usage over every run |
| `Dispatch` | the open-addressed table of the static dispatcher and the emitted lookup with its memo |
| `Mips`, `Control` | instruction facts, and where the machine is after each transfer, read off the word's fields |
| `ConstantTransfer`, `JumpTable`, `DispatchShape` | the constant resolver and the jump-table matcher, against the words they look for and straight-line executions |
| `CaseWords`, `Dominance`, `BypassWords` | what is reached from the case labels; when every way to a dispatch comes through its bound and base; seventeen words for which an accepted one does not |
| `Walk`, `Ownership`, `Rounds` | the control-flow walk of one function, and the rounds between roots and evidence until they agree, repeat or are cut off |
| `WalkedImage`, `WalkHints` | captured bytes through resolvers, walk and ownership; what the walk follows and notes, against the machine |
| `LostEntry`, `LostWords` | eighteen words of which a kernel capture loses an address |
| `FragmentBatch`, `HostedBatch` | the two bisecting batch compilers |
| `Nomination`, `OwnerSweep` | the bounded merge of donor streams and the sweep that finds unique owners |
| `ManifestText`, `Manifest`, `ManifestRules`, `Identity`, `AuditRules` | manifest printing and parsing, the texts the reader accepts, and acceptance of an identity over an image, against its bytes and the machine |
| `Crc32`, `Version` | the host's checksum loop and version ordering |
| `Lzss`, `Archive` | the bank decoder and its aligned container |
| `StaticOutput`, `EligibleRanges` | the audited static output directory and interval subtraction |
| `SortedSets`, `Segments`, `Powers`, `Options` | sets listed in ascending order; guest segments; powers of two; values that may be missing |

Conventions. A file's digest is identified with its contents. A crash is a prefix of the list
of file operations that the code would perform; a publication that raises is a crash followed
by a recovery. Compilers, recompilers and the live-byte gate are functions that may answer
anything, and so are the walks that ownership works on until `WalkedImage` puts the byte walk
in their place. State that the original updates in place is a class (`PairStore`,
`StaticDispatch`, `HostedBatcher`, `StaticDir`) or a loop over local variables, proved equal
to a specification function about which the laws are stated.

Six laws one might expect are false of the code, and are stated with their exact condition.

- The constant resolver answers for `$zero` too, where the machine reads 0: its answer is right
  if and only if the register is not `$zero` or the answer is 0 (`ResolveSound`, with the input
  `ZeroRegisterMisresolved`).
- Cutting the donor streams keeps the nominations but not the "more were left" verdict: it is
  kept for every input exactly when each stream keeps more than coverage plus limit addresses
  (`VerdictKeptExactly`).
- The publisher projects the usage from the staged manifest and never loads the staged DLL. An
  admitted pair whose DLL has the wrong ABI replaces a good one, the pair of a later directory
  is no longer hidden, and a usage can pass its cap (`UnmatchedAbiUnhides`, with the input
  `UnhidingInput`). The bounds survive every admission of a pair exactly when its DLL's ABI
  matches (`BoundsNeedAbi`); its exports need not.
- A kernel image promotes an orphaned interior so that it is not lost, and can lose it all the
  same. The walk from the root before it may visit the address under one cap, and under a later
  cap mark a word on the way as a delay slot before it gets there, and not go on from it. Words
  that do this are given (`LostRunExists`), the walks and rounds over them are followed to the
  end (`WalkTo56`, `WalkTo72`, `LostRounds`), and the address is gone (`KernelLosesAddress`). An
  included address that holds an instruction is kept exactly when it was not derived, or ended
  as a root or with a host (`Classify`). Walks that keep visiting the address ensure that. So
  do the bytes, if no transfer enters a delay slot and no table accepted under a cap is
  rejected under a later one (`CapturedKeeps`).
- A jump table is accepted so that its bound and base are known to hold at the `jr`. In the
  scheduled form every way from the entry comes through them (`ScheduledDominates`). In the
  plain form a word that is reached from a case label may enter behind them, and nothing asks
  whether the entry reaches that word by another way (`AcceptedYetBypassed` gives the words).
  Every way comes through the start of the dispatch if and only if no word that enters behind it
  can be reached around it (`DominatesExactly`).
- The sweep over owners takes its targets in the order of their raw spellings. Whatever the
  owners, it selects the right ones exactly when respelling keeps that order (`SweepExactly`).

## Model

| member | source | states |
|---|---|---|
| `ShardPair.RecoveryCorrect` | overlay_toolchain/compile_overlays.py:5784-5840 | recovery never gets stuck, keeps the logical pair at every intermediate step, and ends with no journal and exactly the logical pair visible |
| `ShardPair.RecoveryIdempotent` | overlay_toolchain/compile_overlays.py:5784-5840 | a second recovery changes neither the visible pair nor any file that is not a backup |
| `ShardPair.RecoveryFiles` | overlay_toolchain/compile_overlays.py:5779-5840 | a completed recovery leaves exactly the logical pair, deletes the backups of its transaction, or without one every listed backup, unless the deletion is refused, moves back the backups it restores, and touches no other file |
| `ShardPair.PublishCorrect` | overlay_toolchain/compile_overlays.py:5868-5954 | after any prefix of a publication the invariant holds and the logical pair is the new one if and only if the DLL rename was performed; the next operation is always possible |
| `ShardPair.PublishFiles` | overlay_toolchain/compile_overlays.py:5868-5954 | an uninterrupted admitted publication leaves exactly the new pair; its staged files are gone, and so are its backups unless their deletion is refused; every other file is as its recovery left it |
| `ShardPair.StepCorrect` | overlay_toolchain/compile_overlays.py:5784-5954 | every event, cut off anywhere, keeps the invariant, and changes the logical pair only by committing |
| `ShardPair.RunRefinesAtomicCache` | overlay_toolchain/compile_overlays.py:5784-5954 | every run of publications, recoveries and crashes refines a cache whose pair changes atomically; a visible DLL always belongs to the logical pair |
| `ShardPair.NeverMixed` | overlay_toolchain/compile_overlays.py:5868-5954 | after every run there is no DLL, or the visible pair is the whole pair that the last commit of the run installed, or nothing committed and it is the initial pair; never halves of two |
| `ShardPair.PairStore.RecoverLocked` | overlay_toolchain/compile_overlays.py:5784-5840 | the step-by-step recovery performs exactly the recovery plan, as far as power lasts; completed, it leaves the files that `RecoveryFiles` describes |
| `ShardPair.PairStore.Restore` | overlay_toolchain/compile_overlays.py:5820-5836 | restoring one name performs exactly its part of the plan, or reports that the backup does not match |
| `ShardPair.PairStore.Publish` | overlay_toolchain/compile_overlays.py:5868-5954 | the step-by-step publication leaves the files that the publish event of the state machine leaves; uninterrupted and admitted, those that `PublishFiles` describes |
| `ShardPair.PairStore.Recover` | overlay_toolchain/compile_overlays.py:5843-5846 | likewise for a recovery event |
| `CacheCapacity.Inventory` | overlay_toolchain/compile_overlays.py:5545-5602 | the scan lists exactly the selected entries: the first listed directory that holds a loadable pair of a name hides the later ones |
| `CacheCapacity.FuncPagesExact` | overlay_toolchain/compile_overlays.py:5391-5406 | a function links to a page exactly when one of its ranges covers a byte of that page |
| `CacheCapacity.LinksCounted` | overlay_toolchain/compile_overlays.py:5391-5406 | the link count of a manifest is the number of pairs of a function and a page that holds a byte it guards |
| `CacheCapacity.Tally` | overlay_toolchain/compile_overlays.py:5545-5602 | one pass counts candidates once per identity, and all rows, page links and files |
| `CacheCapacity.InventoryUnique` | overlay_toolchain/compile_overlays.py:5545-5602 | no two inventory entries have the same file name, and each carries the charge its manifest implies |
| `CacheCapacity.ProjectionExact` | overlay_toolchain/compile_overlays.py:5624-5672 | the projection equals the usage that a fresh inventory finds after the staged pair is published, under shadowing, replacement and identity deduplication |
| `CacheCapacity.ProjectionSafe` | overlay_toolchain/compile_overlays.py:5624-5672 | for any pair whose DLL has the expected ABI, with matching exports or not, the projection is never below what a fresh inventory finds |
| `CacheCapacity.Project` | overlay_toolchain/compile_overlays.py:5624-5672 | the incremental computation from the existing records is that projection |
| `CacheCapacity.RecoverAllShowsLogical` | overlay_toolchain/compile_overlays.py:5605-5621 | recovering the namespace makes every logical pair visible and changes none |
| `CacheCapacity.VerdictExact` | overlay_toolchain/compile_overlays.py:5695-5723 | a publication is refused exactly when some projected usage is above both its cap and the current usage |
| `CacheCapacity.AdmittedBounded` | overlay_toolchain/compile_overlays.py:5695-5723 | an admitted publication of a DLL with the expected ABI leaves each usage at or below its cap or its initial value |
| `CacheCapacity.UnmatchedAbiUnhides` | overlay_toolchain/compile_overlays.py:5886-5927 | with the wrong ABI, the admitted pair un-hides a pair of a later directory and the usage passes the cap |
| `CacheCapacity.UnhidingInput` | overlay_toolchain/compile_overlays.py:5886-5927 | two directories and three pairs on which it happens |
| `CacheCapacity.BoundsNeedAbi` | overlay_toolchain/compile_overlays.py:5886-5927 | the bounds survive every admission of a staged pair if and only if its DLL's ABI matches |
| `CacheCapacity.NamespaceStepLogical` | overlay_toolchain/compile_overlays.py:5886-5927 | each event leaves the logical namespace alone or replaces one pair by an admitted one |
| `CacheCapacity.UsageStaysBounded` | overlay_toolchain/compile_overlays.py:5886-5927 | over every run of publications of DLLs with the expected ABI, recoveries and crashes the four usages stay at or below the larger of cap and initial value |
| `Dispatch.TableSize` | overlay_toolchain/compile_overlays.py:2808-2812 | the least power of two, at least sixteen, that holds twice the entries |
| `Dispatch.FindHole` | overlay_toolchain/compile_overlays.py:2820-2823 | probing ends, at the first empty slot after home |
| `Dispatch.Insert` | overlay_toolchain/compile_overlays.py:2817-2826 | after an insertion every inserted key is found with its row and no other key is held |
| `Dispatch.BuildTable` | overlay_toolchain/compile_overlays.py:2801-2826 | the finished table holds exactly the entries, each with its index, at most half full |
| `Dispatch.KnownSlot` | overlay_toolchain/compile_overlays.py:2800-2806 | the home slot of a given address in a given table |
| `Dispatch.Lookup` | overlay_toolchain/compile_overlays.py:2979-2991 | finds exactly the index of every inserted key, misses every other key, and ends |
| `Dispatch.Unique` | overlay_toolchain/compile_overlays.py:2734-2757 | refuses an entry outside the three segments or at 0; otherwise keeps exactly one variant per guard, in the order of address, checksum, ranges and symbol |
| `Dispatch.SortKeyOrder` | overlay_toolchain/compile_overlays.py:2756 | the sort key orders by address, then checksum, then ranges element by element, then symbol |
| `Dispatch.DedupKeepsAnswers` | overlay_toolchain/compile_overlays.py:2738-2754 | some variant of an address passes the gate if and only if a kept one does |
| `Dispatch.GroupRows` | overlay_toolchain/compile_overlays.py:2828-2833 | each row covers exactly the variants of one address, and the rows cover all |
| `Dispatch.ChoiceSound` | overlay_toolchain/compile_overlays.py:2992-3026 | with any memo the chosen occupant passes the gate, none is chosen if and only if none passes, and the choice does not depend on history when at most one passes |
| `Dispatch.MemoPays` | overlay_toolchain/compile_overlays.py:2992-3026 | no occupant is asked twice, and while the bytes stay the next dispatch makes the same choice, asking the gate once if and only if the memo had hit or the position fits its sixteen bits |
| `Dispatch.StaticDispatch.TryOccupants` | overlay_toolchain/compile_overlays.py:2992-3026 | the emitted loop makes that choice, stores the sixteen-bit memo and asks the gate exactly as often as occupants, memo and gate determine |
| `Dispatch.StaticDispatch.FindVariant` | overlay_toolchain/compile_overlays.py:2979-3029 | a found variant belongs to the address and passes the gate; none found means none passes; the gate checks are counted exactly; other addresses' memos are untouched |
| `Dispatch.StaticDispatch.Run` | overlay_toolchain/compile_overlays.py:3035-3042 | runs a passing variant if and only if there is one, and counts the hit for its entry alone |
| `Mips.WritesGprCoversDestination` | overlay_toolchain/compile_overlays.py:1312-1334 | the write test reports every register an instruction may change |
| `Mips.Keeps` | overlay_toolchain/compile_overlays.py:1312-1334 | a register that no word of a stretch writes keeps its value along every straight-line execution |
| `Mips.CapturedStored` | overlay_toolchain/compile_overlays.py:922-926 | words laid out as little-endian bytes are read back from the capture |
| `Mips.FieldsMakeWord` | overlay_toolchain/compile_overlays.py:922-1033 | the fields of a word determine it: they are its bits at their places |
| `Mips.WritesGprExact` | overlay_toolchain/compile_overlays.py:1312-1334 | for every valid word the write test reports exactly the register the machine writes, and the register field of a coprocessor load |
| `Mips.ValidExactly` | overlay_toolchain/compile_overlays.py:953-981 | a word counts as an instruction exactly when its code is one of the listed ones |
| `Control.FlowWords` | overlay_toolchain/compile_overlays.py:942-950 | the control-flow test finds exactly the words that can transfer |
| `Control.ClassMeans` | overlay_toolchain/compile_overlays.py:984-1033 | the class of a word says what the machine can do there: branch both ways, always jump, call, never branch, or go through a register; its target is where a taken transfer goes |
| `ConstantTransfer.ResolveSound` | overlay_toolchain/compile_overlays.py:1337-1392 | on every straight-line execution from the found LUI the transfer register holds the returned constant, if and only if it is not `$zero` or the constant is 0 |
| `ConstantTransfer.ZeroRegisterMisresolved` | overlay_toolchain/compile_overlays.py:1337-1392 | an image on which the resolver answers nonzero for `$zero` |
| `ConstantTransfer.FindEdge` | overlay_toolchain/compile_overlays.py:1371-1382 | reports exactly whether an edge enters between the LUI and the transfer |
| `ConstantTransfer.ResolveConstantTransfer` | overlay_toolchain/compile_overlays.py:1337-1392 | the backward scan computes the resolver's function |
| `ConstantTransfer.ResolvesExactly` | overlay_toolchain/compile_overlays.py:1337-1392 | an answer is given if and only if the words before the transfer spell a constant, nothing in between writes the register or transfers, and no edge enters; then it is that constant |
| `ConstantTransfer.PairResolves` | overlay_toolchain/compile_overlays.py:1337-1392 | a LUI and an ADDIU or ORI of one register right before the transfer resolve to the value they make |
| `ConstantTransfer.UpperResolves` | overlay_toolchain/compile_overlays.py:1337-1392 | so does a LUI alone |
| `JumpTable.NearestWriter` | overlay_toolchain/compile_overlays.py:1154-1161 | the nearest writer among the last thirty-two words, and nothing after it writes the register |
| `JumpTable.FindBase` | overlay_toolchain/compile_overlays.py:1163-1188 | the base is a nearest-definition LUI, or an ADDIU of one, with its sign-extended sum |
| `JumpTable.NoOtherControl` | overlay_toolchain/compile_overlays.py:1194-1201 | true exactly when only the bounds branch transfers control between constant and suffix |
| `JumpTable.MatchDispatch` | overlay_toolchain/compile_overlays.py:1061-1205 | finds exactly the dispatch the words spell, and what it finds is proved word by word |
| `DispatchShape.DispatchExactly` | overlay_toolchain/compile_overlays.py:1062-1205 | the matcher finds a dispatch if and only if its words are there, instruction by instruction: load, sum and scale behind the compare and branch, in either form, the last definitions of the table register within thirty-two words, and no other transfer from the constant on |
| `JumpTable.DispatchReadsTable` | overlay_toolchain/compile_overlays.py:1061-1206 | every straight-line execution of a matched suffix past the not-taken branch jumps to the word loaded from one of the first `count` table slots, for all registers and all words in between |
| `JumpTable.ReadTable` | overlay_toolchain/compile_overlays.py:1206-1221 | a nonempty set exactly when every slot holds a case label; then it is the set of the slots' words |
| `JumpTable.CaseReachable` | overlay_toolchain/compile_overlays.py:1223-1257 | from the case labels in any order, reports exactly what the cut-off walk meets, and every word of it is reached from a case label by control-flow edges |
| `CaseWords.SuccessorsExactly` | overlay_toolchain/compile_overlays.py:1237-1255 | the walk from the case labels goes on exactly where the machine can be next, a called function returning |
| `CaseWords.CasesClosed` | overlay_toolchain/compile_overlays.py:1227-1255 | unless it is cut off at 2048 words, that walk meets every label in the range and every word the machine can be at next after a word it expanded, and besides those only their delay slots |
| `JumpTable.EdgesAllowed` | overlay_toolchain/compile_overlays.py:1259-1269 | true exactly when no word of the function is missing and no stray direct edge enters the suffix; then no branch, jump or call from outside goes behind the first word of the suffix, unless the walk from the case labels met it in the plain form |
| `JumpTable.StrayIsEntering` | overlay_toolchain/compile_overlays.py:1259-1269 | a stray edge is exactly a word outside the suffix whose taken branch, jump or call, as the machine performs it, goes behind the first word of the suffix |
| `JumpTable.TableCovers` | overlay_toolchain/compile_overlays.py:1206-1221 | if the image's table is intact in memory, every such execution jumps to a member of the target set |
| `JumpTable.FindJumpTableTargets` | overlay_toolchain/compile_overlays.py:1036-1278 | in whatever order the set of targets is iterated: the table's words exactly when the code spells a dispatch and its table is accepted, else nothing; a nonempty answer covers every straight-line execution, consists of case labels, and no branch, jump or call enters the suffix but from words reached from them in the plain form |
| `Dominance.WaysComeThrough` | overlay_toolchain/compile_overlays.py:1223-1269 | every way from the entry to the `jr` of an accepted dispatch comes through the start of its suffix, or enters it from a word that the walk from the case labels met, the latter in the plain form only |
| `Dominance.EnteringIsCase` | overlay_toolchain/compile_overlays.py:1223-1269 | that word is reached from a case label by steps of the machine |
| `Dominance.DominatesExactly` | overlay_toolchain/compile_overlays.py:1036-1278 | the start dominates the `jr` if and only if no word that enters the suffix can be reached around it |
| `Dominance.ScheduledDominates` | overlay_toolchain/compile_overlays.py:1259-1278 | in the scheduled form the start of an accepted dispatch always dominates its `jr` |
| `BypassWords.AcceptedYetBypassed` | overlay_toolchain/compile_overlays.py:1223-1269 | seventeen words in the plain form whose dispatch is accepted though a way from the entry avoids bound and base |
| `Walk.WalkFunction` | overlay_toolchain/compile_overlays.py:1503-1675 | the loop computes the first-come walk; it ends with a set of expanded words: all reachable, every other visited word a delay slot of one, all flow from them visited, and calls, indirect and forward targets, branch targets, continuations, tables with their proofs, and accepted and refused crossings exactly theirs |
| `Walk.WalkSound` | overlay_toolchain/compile_overlays.py:1569-1662 | every visited word is reachable or the delay slot of a reachable transfer |
| `Walk.WalkComplete` | overlay_toolchain/compile_overlays.py:1569-1662 | if no transfer enters a delay slot, exactly the reachable words and their delay slots are visited, and the hints are those of the reachable words |
| `Walk.WalkMonotone` | overlay_toolchain/compile_overlays.py:1569-1662 | under a cap no lower, over words whose flow only grows, a walk visits no less, if no transfer in its reach enters a delay slot |
| `WalkedImage.FlowIsMachine` | overlay_toolchain/compile_overlays.py:1569-1662 | of every captured word but a `jr`, the addresses the walk follows are exactly those where the CPU can be after it and its delay slot, a called function returning behind the slot |
| `WalkedImage.RegisterFlow` | overlay_toolchain/compile_overlays.py:1638-1660 | of a `jr` they are the resolved constant if it lies in the region, else the case labels of an accepted table, and none for a return |
| `WalkedImage.DelayIsMachine` | overlay_toolchain/compile_overlays.py:1577-1662 | the walk marks a delay slot exactly where the machine can run one |
| `WalkedImage.ExecutionVisited` | overlay_toolchain/compile_overlays.py:1569-1662 | every execution that stays in the function, its calls returning and its `jr` going where they were resolved to, only meets visited words, if no transfer enters a delay slot |
| `WalkHints.CallHints` | overlay_toolchain/compile_overlays.py:1589-1658 | a word is noted as a call, an indirect target, a crossing or a refusal exactly when the machine calls or leaves there and the target has that standing |
| `WalkHints.PlaceHints` | overlay_toolchain/compile_overlays.py:1589-1662 | likewise for branch targets, call continuations and targets past the cap |
| `WalkHints.SwitchHints` | overlay_toolchain/compile_overlays.py:1638-1652 | likewise for case labels and table proofs |
| `WalkHints.TraceEvidenced` | overlay_toolchain/compile_overlays.py:1503-1675 | the calls, indirect targets and forward targets that ownership works with are exactly those of the expanded words |
| `WalkHints.ProducerExact` | overlay_toolchain/compile_overlays.py:1522-1526 | the producer of an address is the first listed range that holds it |
| `WalkHints.StandingExactly` | overlay_toolchain/compile_overlays.py:1530-1567 | a function owns exactly the words of its entry's producer; a target is local, a crossing or refused exactly by whether it looks like a table, shares the producer, and crossing is allowed and evident |
| `WalkHints.KernelExactly` | overlay_toolchain/compile_overlays.py:1957 | orphans are promoted exactly in captures loaded in the lowest 64 KiB |
| `Ownership.GatherExact` | overlay_toolchain/compile_overlays.py:2007-2052 | the evidence names exactly the derivable targets some walk shows, a direct call outranking the rest |
| `Ownership.GatherEvidence` | overlay_toolchain/compile_overlays.py:2007-2052 | the loop over the sorted roots gathers that evidence |
| `Ownership.GatherReason` | overlay_toolchain/compile_overlays.py:2007-2052 | a target that no walk calls directly gets its reason from the first root whose walk shows it, an indirect target outranking a branch |
| `Ownership.PruneRoots` | overlay_toolchain/compile_overlays.py:2054-2069 | the normalising loop computes the pruned roots |
| `Ownership.PruneBounds` | overlay_toolchain/compile_overlays.py:2054-2069 | pruning keeps the order, invents no root and removes only targets |
| `Ownership.PrunedIsHosted` | overlay_toolchain/compile_overlays.py:2054-2069 | a removed target that walks keep visiting under later caps is visited by a walk of the final partition |
| `Ownership.Unstable` | overlay_toolchain/compile_overlays.py:1972-1984 | what some states of a cycle have and others lack |
| `Ownership.Discover` | overlay_toolchain/compile_overlays.py:1959-2075 | discovery ends for every walk function with what the three rows below determine: roots and evidence that reproduce each other, or exactly the explicit and promoted roots; only derived roots are suppressed |
| `Ownership.AgreementKept` | overlay_toolchain/compile_overlays.py:1964-2075 | if within 64 rounds, before any repetition, the roots and the evidence reproduce each other, they are the result and nothing is suppressed |
| `Ownership.CycleSuppressed` | overlay_toolchain/compile_overlays.py:1970-1997 | at the first repetition exactly the derived roots that come and go along the cycle are suppressed and discovery starts over from the explicit and promoted roots; with none, or after 64 such passes, only those are left |
| `Ownership.NoAgreement` | overlay_toolchain/compile_overlays.py:1971-2005 | with neither in 64 rounds, only the explicit and promoted roots are left |
| `Ownership.SettledRoots` | overlay_toolchain/compile_overlays.py:1959-2075 | at the end nothing suppressed or explicit is derived, and every root is explicit, promoted or derived |
| `Ownership.SettleRoots` | overlay_toolchain/compile_overlays.py:1950-2104 | promotion ends, with the outcome that the two rows below determine; a kernel image is left with no valid interior that no walk visits |
| `Ownership.LowestPromoted` | overlay_toolchain/compile_overlays.py:2077-2104 | a kernel image with orphans promotes the lowest one and discovers again with it among the roots, keeping the evidence, what is suppressed and the passes used |
| `Ownership.NothingPromoted` | overlay_toolchain/compile_overlays.py:2074-2094 | without orphans, or outside the kernel window, the discovery stands and nothing is promoted |
| `Ownership.Finalize` | overlay_toolchain/compile_overlays.py:2106-2143 | exactly which addresses remain and with which reason; explicit roots keep theirs, derived roots get theirs, a derived target that is no root becomes an interior, and every remaining interior is visited by a walk from a final root; a housed address remains if and only if it was not derived, or is a root or visited |
| `Ownership.Classify` | overlay_toolchain/compile_overlays.py:1947-2143 | all of these together; a kernel image keeps an included address that holds a valid word if and only if it was not derived, or is a root or visited at the end, which walks that keep visiting it ensure |
| `WalkedImage.JumpFollowed` | overlay_toolchain/compile_overlays.py:1638-1658 | where a straight-line execution up to a `jr` jumps, with its table intact, is among what the walk follows, if and only if no constant was resolved for `$zero` or it is 0 |
| `WalkedImage.JumpVisited` | overlay_toolchain/compile_overlays.py:1638-1658 | so a walk that expands the `jr` visits that address, if it is a word of the function |
| `WalkedImage.WalkedMonotone` | overlay_toolchain/compile_overlays.py:1569-1662 | walks over code seen by entry and cap are monotone in their cap, if no transfer enters a delay slot and a later cap takes no flow away |
| `WalkedImage.WalkedKeeps` | overlay_toolchain/compile_overlays.py:1947-2143 | then every settled state meets the condition under which a kernel image keeps an address |
| `WalkedImage.CapturedKeeps` | overlay_toolchain/compile_overlays.py:1947-2143 | so does every settled state over captured bytes whose accepted tables stay accepted under later caps |
| `LostWords.WalkTo56` | overlay_toolchain/compile_overlays.py:1503-1675 | over the losing words the walk up to 56 visits 48 |
| `LostWords.WalkTo72` | overlay_toolchain/compile_overlays.py:1503-1675 | and the walk up to the end visits 56 and not 48, and shows the same two calls |
| `LostWords.LostRunExists` | overlay_toolchain/compile_overlays.py:1947-2143 | every capture of such words in the kernel window makes the run below, for any iteration order and any acceptance of branches past a cap |
| `LostEntry.LostRounds` | overlay_toolchain/compile_overlays.py:1950-2104 | round by round: the first roots settle with 48 the one orphan; with 48 promoted the roots settle again at 0 alone, with no orphan |
| `LostEntry.LostSettlement` | overlay_toolchain/compile_overlays.py:1950-2104 | those rounds are what the classification performs from the start |
| `LostEntry.KernelLosesAddress` | overlay_toolchain/compile_overlays.py:1950-2143 | the final reasons of that run do not name 48, a dispatched address that holds a valid word |
| `FragmentBatch.EveryRootOnce` | overlay_toolchain/compile_overlays.py:4391-4428 | for any compiler every root gets exactly one outcome |
| `FragmentBatch.AttemptsBounded` | overlay_toolchain/compile_overlays.py:4391-4428 | at most 2n-1 compile calls |
| `FragmentBatch.BisectionIsolatesBad` | overlay_toolchain/compile_overlays.py:4391-4428 | when batches fail exactly on bad roots, good roots are served and bad roots are reported alone |
| `FragmentBatch.CompileBatchedCorrect` | overlay_toolchain/compile_overlays.py:4391-4428 | the three together for a whole call |
| `FragmentBatch.EventsCaused` | overlay_toolchain/compile_overlays.py:4391-4428 | every event has its cause in the compiler's answer for a batch that holds the roots it names |
| `FragmentBatch.BuiltCounted` | overlay_toolchain/compile_overlays.py:4391-4428 | the returned number is that of the successful compilations |
| `HostedBatch.GroupByHost` | overlay_toolchain/compile_overlays.py:4445-4460 | groups in the order of their keys, each within the alias cap with its targets ascending, a group of the same key before another one full and lower; together they name every hosted target once under its own key |
| `HostedBatch.Pack` | overlay_toolchain/compile_overlays.py:4462-4476 | chunks concatenate to the groups, respect both caps and never name a host twice; a chunk is closed only when the next group does not fit |
| `HostedBatch.KeepSplits` | overlay_toolchain/compile_overlays.py:4484-4524 | filtering by need, or by what was served, splits the targets without losing or repeating one |
| `HostedBatch.HostedBatcher.Run` | overlay_toolchain/compile_overlays.py:4480-4551 | accounts for each target of a batch once, at a moment and with a cause in the answers of that moment; compiles only targets needed then; makes at most 2n-1 attempts and never more than the cap; returns the number of successful builds |
| `HostedBatch.HostedBatcher.RunChunks` | overlay_toolchain/compile_overlays.py:4553-4558 | the same over all chunks, with what a stop leaves out accounted for |
| `HostedBatch.HostedBatcher.CompileHosted` | overlay_toolchain/compile_overlays.py:4431-4558 | every hosted target is accounted for exactly once, the attempt cap of 8191 is never reached within the 4096 selected aliases, and the successful builds are counted |
| `Nomination.SiblingProofs` | overlay_toolchain/compile_overlays.py:4307-4342 | the first `limit` distinct addresses, ascending, of the other recipes' union minus covered ones, and whether more were left |
| `Nomination.Merge` | overlay_toolchain/compile_overlays.py:4329-4342 | the k-way merge computes that |
| `Nomination.CutKeepsNominations` | overlay_toolchain/compile_overlays.py:7409-7445 | keeping of each stream as many addresses as can be covered plus the limit changes no nomination |
| `Nomination.RoomierCutKeepsVerdict` | overlay_toolchain/compile_overlays.py:7433-7445 | one place more also keeps the truncation verdict |
| `Nomination.VerdictKeptExactly` | overlay_toolchain/compile_overlays.py:7433-7445 | for every segment, coverage and limit, the verdict is kept for all word-aligned donors if and only if each stream keeps more than coverage plus limit addresses |
| `OwnerSweep.Preferred` | overlay_toolchain/compile_overlays.py:4160-4169 | the trusted reason of highest priority, none exactly if no trusted reason is present |
| `OwnerSweep.NormalizedMeans` | overlay_toolchain/compile_overlays.py:4137-4141 | a normalized identity has the same physical entry and ranges, spelled in the segment, and a 32-bit checksum |
| `OwnerSweep.ProducerExact` | overlay_toolchain/compile_overlays.py:4144-4157 | the producer of an address is the whole image, or the first part that holds it |
| `OwnerSweep.ClaimsExactly` | overlay_toolchain/compile_overlays.py:4199-4220 | an identity claims a target exactly when it is locally rooted with one range from its entry that ends within its producer and strictly contains the target, which has the same producer |
| `OwnerSweep.ConsideredExactly` | overlay_toolchain/compile_overlays.py:4223-4237 | a nominated address counts exactly when it has a donor, is aligned and lies in the image and in a producer |
| `OwnerSweep.Nominated` | overlay_toolchain/compile_overlays.py:4183-4185 | the 4096 lowest nominated addresses, or all, in ascending order |
| `OwnerSweep.ListOwners` | overlay_toolchain/compile_overlays.py:4196-4220 | exactly the owners that eligible identities make, each once, sorted by start |
| `OwnerSweep.Advance` | overlay_toolchain/compile_overlays.py:4238-4245 | the loop brings the active list forward as its function says |
| `OwnerSweep.AdvanceExact` | overlay_toolchain/compile_overlays.py:4238-4245 | for a target not below the last one the active list holds exactly the owners whose range strictly contains it |
| `OwnerSweep.Sweep` | overlay_toolchain/compile_overlays.py:4223-4262 | the loop computes the sweep's function, for nominations in any order |
| `OwnerSweep.InOrderExact` | overlay_toolchain/compile_overlays.py:4223-4262 | in order, the sweep maps a respelled nomination exactly when one identity of its producer claims it |
| `OwnerSweep.SweepExactly` | overlay_toolchain/compile_overlays.py:4223-4262 | the sweep is exact for all local evidence and identities if and only if respelling keeps the order of the nominations considered |
| `OwnerSweep.OneSegmentInOrder` | overlay_toolchain/compile_overlays.py:4223-4224 | nominations spelled in one segment, the job's or another, stay in order when respelled |
| `OwnerSweep.SelectDemands` | overlay_toolchain/compile_overlays.py:4172-4285 | before the caps the selection is the sweep over the owners, and in order equals the definition target by target; the caps then keep every target of the hosts met before one point |
| `OwnerSweep.ApplyCaps` | overlay_toolchain/compile_overlays.py:4263-4276 | all is kept, or exactly the hosts of one cap in order of appearance; the alias cap never drops a target |
| `ManifestText.ParsePrinted` | overlay_toolchain/compile_overlays.py:3347-3350 | a printed hexadecimal field that fits is read back |
| `ManifestText.DigitsExact` | overlay_toolchain/compile_overlays.py:3347-3350 | the hexadecimal digits, in both cases, and their values |
| `ManifestText.LinesUnlines` | overlay_toolchain/compile_overlays.py:3361 | splitting joined lines gives the lines back |
| `Manifest.ParseManifest` | overlay_toolchain/compile_overlays.py:3337-3427 | the reader's loop computes the reader's function |
| `ManifestRules.ParsesExactly` | overlay_toolchain/compile_overlays.py:3337-3427 | a text is accepted if and only if every line is well formed in its place, nothing that may stand once stands twice, and pair and segment are the expected ones; the functions read are those the lines spell |
| `ManifestRules.RepresentableExactly` | overlay_toolchain/compile_overlays.py:3872-3886 | the runtime's contract: no two functions at one physical address, one to sixteen nonempty ranges within 8 MiB of RAM each, and the entry inside one of them |
| `Manifest.ParsePrint` | overlay_toolchain/compile_overlays.py:3202-3237 | a manifest printed for representable identities in one segment is read back: same pair, entries, checksums and KSEG0-spelled ranges, in order |
| `Manifest.ProvenancePrint` | overlay_toolchain/compile_overlays.py:774-784 | the printed provenance is read back, and is absent when none was printed |
| `Manifest.SameRepresentable` | overlay_toolchain/compile_overlays.py:3872-3886 | the range contract survives the change of spelling |
| `Identity.ChainedIsCrc` | overlay_toolchain/compile_overlays.py:3116-3123 | chaining the checksum over the ranges is the checksum of their concatenated bytes |
| `Identity.ControlKindMeans` | overlay_toolchain/compile_overlays.py:3133-3146 | the audit's classes are the machine's: supported transfers, other transfers, and the rest |
| `Identity.AuditDelaySlots` | overlay_toolchain/compile_overlays.py:3149-3199 | no error exactly when every range is placed, no branch is unsupported, every delay slot is guarded and none holds a transfer |
| `AuditRules.AuditExact` | overlay_toolchain/compile_overlays.py:3149-3199 | the audit passes exactly up to sixteen ranges of whole captured words in which the machine meets no unsupported branch, finds every delay slot in the same ranges and transfers in none |
| `AuditRules.BytesExact` | overlay_toolchain/compile_overlays.py:3113-3123 | the guarded bytes of a range in the capture are the captured bytes at its addresses |
| `AuditRules.ComputeExact` | overlay_toolchain/compile_overlays.py:3111-3130 | an identity is made exactly of ranges inside the capture, and names the entry in the image's segment and the checksum of the guarded bytes |
| `Identity.CheckIdentity` | overlay_toolchain/compile_overlays.py:3523-3534 | accepts exactly the identities whose ranges, checksum and audit hold over the image |
| `Identity.CurrentVariants` | overlay_toolchain/compile_overlays.py:3516-3535 | keeps exactly those, in order |
| `Identity.AcceptedAfterRoundTrip` | overlay_toolchain/compile_overlays.py:3065-3130 | an identity computed from an audited image is accepted over that image after its manifest was printed and parsed |
| `Identity.AcceptedOnlyIfEqual` | overlay_toolchain/compile_overlays.py:3516-3535 | over another image it is accepted only if the guarded bytes have the same checksum and the audit passes there |
| `Identity.AcceptedIfEqual` | overlay_toolchain/compile_overlays.py:3516-3535 | and that, with ranges inside the image, is enough |
| `Identity.ChangedIsRefused` | overlay_toolchain/compile_overlays.py:3516-3535 | an image whose guarded bytes differ only within four consecutive bytes is always refused |
| `Crc32.FeedBijective` | host/psxrecomp_codegen_host.c:1300-1304 | feeding a fixed byte is a bijection of the register |
| `Crc32.HostCrc32` | host/psxrecomp_codegen_host.c:1297-1306 | the two loops compute the checksum function |
| `Crc32.CheckValue` | host/psxrecomp_codegen_host.c:1297-1306 | the checksum of "123456789" is 0xCBF43926 |
| `Crc32.FoldConcat` | host/psxrecomp_codegen_host.c:1297-1306 | folding a concatenation is folding its parts in turn |
| `Crc32.FoldBijective` | host/psxrecomp_codegen_host.c:1297-1306 | folding fixed data is a bijection of the register |
| `Crc32.TableForm` | host/psxrecomp_codegen_host.c:1302-1303 | the bit loop equals the table-driven update of section 8 of RFC 1952 |
| `Crc32.ByteDetected` | host/psxrecomp_codegen_host.c:1297-1306 | buffers that differ in one byte have different checksums |
| `Crc32.BurstDetected` | host/psxrecomp_codegen_host.c:1297-1306 | so have buffers that differ only within four consecutive bytes |
| `Version.VersionCmp` | host/psxrecomp_codegen_host.c:2039-2068 | the two-pointer loop orders versions as their component lists, a version that goes on being later |
| `Version.CompareEqual` | host/psxrecomp_codegen_host.c:2059-2062 | equal exactly for equal components |
| `Version.CompareOpposite` | host/psxrecomp_codegen_host.c:2061-2067 | swapping the versions swaps the sign |
| `Version.CompareTransitive` | host/psxrecomp_codegen_host.c:2061-2067 | the order is transitive, strictly if one step is strict |
| `Version.CompareLexicographic` | host/psxrecomp_codegen_host.c:2057-2067 | versions compare at their first different component, and the one that goes on is later |
| `Version.ComponentsDotted` | host/psxrecomp_codegen_host.c:2046-2066 | reading a dotted version gives its components back |
| `Version.SuffixRead` | host/psxrecomp_codegen_host.c:2046-2066 | a suffix that does not start with a digit is skipped to its next dot or ends the version |
| `Version.NotAVersion` | host/psxrecomp_codegen_host.c:2042-2048 | text that starts with neither a digit nor a v before a digit has no component |
| `Version.LeadingV` | host/psxrecomp_codegen_host.c:2042-2045 | a leading v or V makes no difference |
| `Lzss.CopyPeriodic` | tools/aligned_lzss_banks.py:54-55 | an overlapping copy repeats the last `distance` bytes periodically |
| `Lzss.CopyLengthGrows` | tools/aligned_lzss_banks.py:20-25 | the piecewise length table is strictly increasing |
| `Lzss.LengthField` | tools/aligned_lzss_banks.py:20-25 | the number of length codes times the size of the distance field is 128, for every parameter |
| `Lzss.CopyLengthTable` | tools/aligned_lzss_banks.py:20-25 | lengths start at 3, grow by 1 as often as the number of codes gives, and by the parameter's power of two from there |
| `Lzss.KnownDistance` | tools/aligned_lzss_banks.py:16-56 | a given stream decodes to AAAA |
| `Lzss.KnownLength` | tools/aligned_lzss_banks.py:16-56 | a given stream with a long copy decodes to its run |
| `Lzss.KnownErrors` | tools/aligned_lzss_banks.py:16-56 | given streams that end early or refer to before the output fail as such |
| `Lzss.DecodeEncode` | tools/aligned_lzss_banks.py:16-56 | for every token list and parameter below 32, decoding the encoding gives the expansion, consumes exactly 4 + ceil(tokens/8) + literals + 2*references bytes, stays within the limit, and ignores what follows |
| `Lzss.DecodeInverse` | tools/aligned_lzss_banks.py:16-56 | whatever decodes starts with an encoding of tokens that expand to the output |
| `Lzss.SuffixIrrelevant` | tools/aligned_lzss_banks.py:31-36 | bytes after the consumed prefix do not matter |
| `Lzss.ShorterFails` | tools/aligned_lzss_banks.py:31-36 | no shorter prefix decodes |
| `Lzss.DecodeStream` | tools/aligned_lzss_banks.py:16-56 | the nested loops compute the decoder's function, errors included |
| `Archive.Members` | tools/aligned_lzss_banks.py:59-75 | succeeds on exactly the well-formed archives and describes each member's place, size and body |
| `Archive.EveryByteOwned` | tools/aligned_lzss_banks.py:65-75 | every byte after the header lies in a member's extent |
| `Archive.ExtentsDisjoint` | tools/aligned_lzss_banks.py:65-75 | and in only one |
| `Archive.ExtentsAligned` | tools/aligned_lzss_banks.py:68-74 | extents start aligned and waste less than one unit |
| `Archive.RoundUpFormula` | tools/aligned_lzss_banks.py:68 | the extent is the stored size rounded up by the quotient |
| `Archive.BuildListed` | tools/aligned_lzss_banks.py:59-75 | listing a written archive gives every body back in order |
| `StaticOutput.PublishLands` | tools/aot_overlay_pipeline.py:952-967 | an uninterrupted publication leaves exactly the build and its receipt |
| `StaticOutput.ReceiptIsIssued` | tools/aot_overlay_pipeline.py:952-967 | over every run a readable receipt is that of the last completed publication |
| `StaticOutput.ReuseIsAudited` | tools/aot_overlay_pipeline.py:1082-1100 | reuse is granted only for exactly the units of the last completed publication, made for these inputs |
| `StaticOutput.PublishedIsReusable` | tools/aot_overlay_pipeline.py:952-967 | an uninterrupted publication can be reused for its inputs |
| `StaticOutput.ClearedIsEmpty` | tools/aot_overlay_pipeline.py:1072-1079 | an uninterrupted clear leaves nothing |
| `StaticOutput.StaticDir.PublishStatic` | tools/aot_overlay_pipeline.py:952-967 | unlinking, copying and writing the receipt file by file, stopped anywhere, gives the state machine's directory |
| `StaticOutput.StaticDir.ClearStatic` | tools/aot_overlay_pipeline.py:1072-1079 | likewise for clearing |
| `StaticOutput.StaticDir.ReusableStatic` | tools/aot_overlay_pipeline.py:1082-1100 | the checks succeed exactly when the units equal a receipt for these inputs |
| `EligibleRanges.Eligible` | tools/aot_overlay_pipeline.py:650-669 | succeeds exactly on sound, pairwise disjoint exclusions, and otherwise blames the first one at fault; the result is ordered, disjoint and holds exactly the addresses of the interval outside every exclusion |

## Left out

- Subprocesses (recompiler, gcc, tcc, cmake), DLL loading, toolchain download, disc reading, mod packages and the command lines: input and output, replaced by arbitrary answers.
- Operating-system locks: a process is assumed to hold the pair lock while it works and to lose it when it dies.
- Path parsing and file-name patterns of the cache: directories arrive as an ordered list without repetitions, as the namespace function produces it.
- The temporary file behind the atomic journal write: the write is one operation.
- ShardPair.PairStore.Publish: an exception inside a publication is modelled as stopping there followed by a recovery event, which performs the same operations.
- CacheCapacity.ProjectionExact: exact for a staged pair that the runtime would load in full; `ProjectionSafe` covers every DLL with the expected ABI and `BoundsNeedAbi` the rest. The final directory is among the listed ones, as the namespace function produces it.
- CacheCapacity.AdmittedBounded: the file cap and the factors of the row and link caps are those of the runtime's constants; other configurations are not modelled.
- Dispatch.StaticDispatch.Run: the 64-bit counters of the emitted code are unbounded here.
- Regular-expression rewriting of generated C and printed audits: string handling without a law worth stating.
- JumpTable.DispatchReadsTable: speaks of straight-line executions with interlocked loads; the plain form lets `jr` follow `lw` directly, which is right only with interlocking. `Dominance` speaks of ways through the words instead, in which a jump through a register ends the way.
- Control.ClassMeans: branch-likely words, which the R3000A lacks, follow the MIPS II manual; encodings that no manual defines may go either way; a linking branch that may fall through is a branch, as the discovery code has it, not a call.
- JumpTable.FindJumpTableTargets: the image is assumed to lie in the 32-bit address space.
- Walk.WalkFunction: the sets and lists it returns are one set of hints; the order of the table proofs is not kept.
- Ownership.Classify: the first assignment of reasons to captured addresses, the labels of excluded addresses and the acceptance of branches past a cap are inputs.
- WalkedImage.JumpFollowed: the evidence that a target called from another producer must have is an input, and an address below zero stands for the end of the image, which is outside it too.
- HostedBatch.HostedBatcher.Run: a failure that may not be split reports only its first host; the model records the later hosts as unreported, which is what the original does silently.
- Nomination.CutKeepsNominations: addresses are assumed to be spelled in one segment, as the caller canonicalises them.
- OwnerSweep.SelectDemands: ties in the owner order are broken arbitrarily, since the result does not depend on them in order; reason names are numbered by priority, and the rejection counters are left out.
- Manifest.ParsePrint: entries are 32-bit addresses; an identity's range must lie in RAM, as the reader demands.
- Identity.Compute: the recompiler's own range file is not parsed here; entry and ranges are arguments.
- Version.VersionCmp: components are unbounded, where C would overflow a long.
- Archive.Members: selecting and decoding banks by tag is left out; it only calls these two functions.
- StaticOutput.ReuseIsAudited: others may change units and lose or spoil the receipt, but not forge one; a copy that the digest check catches is a stop followed by such a change.
- Sizes of the native image table, RAM mirroring, evidence checks and record building of the disc pipeline: they rest on modules outside this model.
