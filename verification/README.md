# psxport CPU-side runtime: a Dafny model

This project models the part of the runtime that decides what guest code means and who executes it: which image owns
an address, whether a native override answers there, what a shadowed call may touch, how a guest call survives being
cut into host turns, how much guest time a segment is charged, and two byte formats whose readers must never guess.
Everything is proved for all inputs, all programs or all reachable states.

`dafny verify dfyconfig.toml` checks every file.

## How it is laid out

- `GuestTypes.dfy`: 32-bit words, bytes, the 29-bit physical fold, address ranges, exit reasons.
- `ImageCatalog.dfy`: the layered residency catalog. Point lookup, range lookup, activation, subtraction, unloading
  and adoption as functions on a list of entries, and the class that performs them in place. `ResidencySeams.dfy` tells
  from the fragments alone when range and point lookup agree.
- `NativeDispatch.dfy`: the uncached resolution of a guest address, the direct-mapped verdict table
  validated by one epoch and per-address forgetting, and the dispatcher class over both.
- `MachineSnapshot.dfy`: the maximal runs in which two memories differ, the chunk-skipping scan that finds them, and
  capture and restore on a CPU object.
- `SideEffectJournal.dfy`: the per-call effect log in its Record, Replay and Discard modes, with its bound.
- `CallContract.dfy`: the O32 calling contract as a declarative predicate and the comparison that judges it.
- `CallPrograms.dfy`, `ShadowRuns.dfy`, `BoundFaults.dfy`: guest and native bodies as arbitrary interaction programs
  (device reads and writes, nested overrides, host services, syscalls, pending work, passing time, translated frames,
  exit requests), the shadowing of one by the other, and exactly where its promises stop at the journal's bound.
- `OverrideDifferential.dfy`: the same as classes that change the Core in place, plus the per-key tallies.
- `SegmentClock.dfy`, `LightrecExecutor.dfy`: the clock ledger and the bounded executor loop around an abstract
  `lightrec_execute`.
- `ExecutorTurn.dfy`: that loop over a deterministic guest is the uninterrupted turn the call slices are made of.
- `BlobCodec.dfy`, `ResumableCall.dfy`, `GuestCore.dfy`: little-endian integers and the bounded reader; the resumable
  guest call, its slices, its save and its load; and the same call as an object on a Core whose dispatcher answers at
  every block boundary.
- `GuestWriterLatch.dfy`: the 64-frame ring against an unbounded call stack.
- `Invalidation.dfy`: the split of a written range into word-aligned physical segments.
- `PadRecording.dfy`: the v1 pad recording's printer and parser, the button word and the migration.
- `OracleSnapshot.dfy`: the oracle snapshot's schema, image and all-or-nothing load for any checksum and state rules,
  then the program's own, where no single damaged byte goes unnoticed.

State that the source updates in place is a class; each of its methods is tied by `ensures` to a function of the old
state (`Model() == Activated(old(Model()), ...)`), and the theorems are about those functions. Names in the past tense
(`Activated`, `Subtracted`, `Popped`) are the specification functions, the imperative ones the methods.

## What the model found

Each of these is a promise that does not hold everywhere, with the exact condition under which it does.

- Range lookup is exact in every catalog reachable by well-stated operations, but `activate` and `adopt` check nothing.
  An empty range activated inside an image, or an adopted residency whose fragments touch, makes a range that one image
  owns outright unresolvable. `ActivateKeepsRangeExactIff` and `AdoptKeepsRangeExactIff` say for which arguments it
  stays exact. The header's comment that a range resolves only when one residency owns every byte
  (runtime/cpu/image_identity.h:51-52) is the half that always holds (`RangeOwnerIsSound`).
- A shadow path whose log is cut at the bound inside translated frames is still judged
  (runtime/cpu/override_differential.cpp:219-249). A native that overruns the bound can be a Match exactly when the
  original itself logged as many effects as the bound admits: `TruncationCanHideIff`. Below that a Match always compared
  whole logs, which is what `MatchedNativeCouldStandIn` asks for.
- A native stopped by the bound leaves its exit request pending on the live Core. `ExitRequestSurvivesIff` says for
  which runs, `ExitRequestCanLeakIff` for which originals some native can do so: every one whose native is run at all.
- A refused turn captures no registers and leaves the call pending. The call still stands on the guest's run exactly
  when it met its cap or the live registers are the ones it already held: `RefusedCallStandsIff`, with
  `NextTurnGoesOnIff` for what the next turn does. An empty later turn is harmless; an empty first turn is not, since
  the next one starts from registers that were never captured (`EmptyTurnStandsIff`).
- A turn with cycles to spend can be refused as having made none (runtime/cpu/resumable_guest_call.cpp:97): exactly when
  host services that charge nothing use up its dispatches first, or a step asks for the exhausted exit itself. The
  guest has then moved, unless it met a service with no dispatch to spend at all (`IdleTurnIff`); `IdleTurnCanMove` has
  a guest that moves as far as any budget allows.
- The writer ring is the call stack at any nesting, from any cleared ring, until an entry unwinds onto an overwritten
  frame of another function, or a lost frame and its overwriter answer it differently. After the first, the next call
  that both take for a call names the right function again (`RingFollowsTheCallStackIff`). Within 64 frames neither can
  happen (`RingIsTheCallStack`).
- The dead-stack window excuses every memory byte within its size below the stack pointer exactly when the size stays
  within `Unbroken`: in a later RAM mirror down to that mirror's start, past the mirrors, scratchpad included, down to
  their end, past the scratchpad down to its end, and in the first mirror around the end of the physical space to the
  scratchpad (`WindowExcusesAllBelowIff`). At 0x80200000 nothing is excused and at 0x80200010 sixteen bytes
  (`MirrorStartIsJudged`).
- The pad printer accepts recordings the parser refuses (an unknown card kind, no phase, a phase without frames):
  `ParseOfPrintIff` is the exact boundary, `PrintedButRefused` gives the refusals.
- The writer latch takes a `jal`'s 256 MB region from the `jal` itself (runtime/cpu/guest_writer_latch.h:74-75), the
  processor from its delay slot. The two differ exactly for a `jal` in the last word of a region
  (`LastWordOfARegionIff`).
- A segment's charge is its instruction count exactly when the counter's total rise stays within twice the count plus
  one; any excess is charged on top: `SegmentChargedExactlyIff`. One access seen at cycle 4 charges one instruction
  twice (`OneInstructionChargedTwice`).

## Assumptions about Lightrec and the guest

- `LightrecExecutors.Admissible`: the first block is the one at the pc handed in, a block executes at least one
  instruction, a segment that runs no block at all ends the call, and the cycle counter does not fall within a segment
  and stays within two cycles an executed instruction; `AdmissibleAlways` asks it of every pass.
- Exit flags are cleared on entry and raised only by executed code (`LightrecExecutors.Flags`), and pending work rises
  only through executed code, accounting or a service, so a pass that executed nothing finds both as it left them
  (`LightrecExecutors.Proceed`). Everything else the environment answers is arbitrary: which blocks are reached, any set
  of exit flags, deadlines, service results, exit requests, pending work after anything that can raise it.
- `ResumableCalls.Sincere`: a guest block that asks for no exit costs a cycle, a host service that asks for none returns
  to ra, and no step reports a return it did not make. A step that asks for an exit, and any host service, may be free.
- `ExecutorTurns.Uncharged` and `Plays`: a host service that returns is charged nothing, Lightrec's boundaries are those
  of the guest and its target is tested before the boundary callback, servicing pending work or an interrupt leaves the
  guest where it was, and no block is refused as a fallback. `EveryPassCanPlay` shows that these can all be met.

## Model

| member | source | states |
|---|---|---|
| ImageCatalogs.OwnerIsNewestCover | runtime/cpu/image_identity.cpp:60-74 | the point lookup names the newest active entry that covers the physical address |
| ImageCatalogs.OwnerIsNoneWhenUncovered | runtime/cpu/image_identity.cpp:60-74 | it names nothing exactly when no active entry covers the address |
| ImageCatalogs.RangeOwnerIsSound | runtime/cpu/image_identity.cpp:76-97 | in any catalog at all, a range lookup only names an image that owns every byte of the range |
| ImageCatalogs.UnresolvedRangeBreaksASeam | runtime/cpu/image_identity.cpp:76-97 | a solely owned range that does not resolve contains a two-byte or empty-fragment seam that does not resolve either |
| ImageCatalogs.RangeExactIffSeamsHold | runtime/cpu/image_identity.cpp:76-97 | range and point lookup agree on every range if and only if they agree on the seams of the catalog's own fragments |
| ImageCatalogs.CanonicalIsRangeExact | runtime/cpu/image_identity.cpp:76-97 | with separated fragments and distinct identities a range resolves to an image iff every byte does |
| ImageCatalogs.ActivateKeepsRangeExactIff | runtime/cpu/image_identity.cpp:11-16 | an activation keeps that agreement exactly when its range holds a byte or the malformed fragment cuts no solely owned range |
| ImageCatalogs.EmptyActivationSpoilsRangeLookup | runtime/cpu/image_identity.cpp:11-16 | an empty range activated inside an image breaks it |
| ImageCatalogs.SurvivingCoverage | runtime/cpu/image_identity.cpp:28-41 | the surviving fragments cover exactly the old bytes outside the subtracted range |
| ImageCatalogs.SurvivingSeparated | runtime/cpu/image_identity.cpp:28-41 | fragments stay ascending, nonempty and strictly separated through a subtraction |
| ImageCatalogs.SubtractTakesExactlyTheBytes | runtime/cpu/image_identity.cpp:18-46 | subtraction takes exactly the given bytes from one identity, moves no other address's owner, touches no other entry, and the image goes inactive iff nothing is left |
| ImageCatalogs.UnloadRevealsWhatWasBelow | runtime/cpu/image_identity.cpp:48-58 | activating, cutting any ranges and unloading leaves every address's owner as it was |
| ImageCatalogs.ScanKeepsLongestPrefix | runtime/cpu/image_identity.cpp:115-132 | the adoption scan keeps the longest prefix of the live residencies that the adopted ones match |
| ImageCatalogs.AdoptMakesExactlyTheResidencies | runtime/cpu/image_identity.cpp:115-138 | after adoption the active residencies are the given ones in order, the longest matching prefix keeps its identities, every other entry has one never issued before |
| ImageCatalogs.AdoptingOwnResidenciesChangesNothing | runtime/cpu/image_identity.cpp:105-138 | adopting the saved active residencies leaves every entry alone |
| ImageCatalogs.ApplyKeepsIssued | runtime/cpu/image_identity.cpp:11-138 | every operation keeps identities unique and the next one new |
| ImageCatalogs.ApplyKeepsCanonical | runtime/cpu/image_identity.cpp:11-138 | every well-stated operation keeps fragments separated and identities distinct |
| ImageCatalogs.EveryReachableCatalogIsRangeExact | runtime/cpu/image_identity.cpp:11-138 | in every catalog any sequence of well-stated operations reaches, a range resolves to an image iff that image owns every byte |
| ImageCatalogs.TouchingFragmentsSpoilRangeLookup | runtime/cpu/image_identity.cpp:115-138 | adopting touching fragments breaks the range promise |
| ResidencySeams.RangeExactIffUnspoiled | runtime/cpu/image_identity.cpp:76-97 | with distinct identities, range and point lookup agree iff no fragment meets another or holds no byte amid bytes one residency tops, unshielded by a newer or earlier one |
| ResidencySeams.AdoptKeepsRangeExactIff | runtime/cpu/image_identity.cpp:115-138 | whatever the catalog held, range lookup is exact after adoption iff the residencies handed in are so |
| ImageCatalogs.DispatchEpoch.Advance | runtime/cpu/dispatch_epoch.h:13-15 | the epoch moves by one |
| ImageCatalogs.ImageCatalog.Changed | runtime/cpu/image_identity.h:74-77 | revision and epoch both move |
| ImageCatalogs.ImageCatalog.Activate | runtime/cpu/image_identity.cpp:11-16 | the catalog is the activated one, the identity is the next one, the epoch moved |
| ImageCatalogs.ImageCatalog.SubtractRange | runtime/cpu/image_identity.cpp:18-46 | refuses exactly the ranges that are not valid physical ones, otherwise leaves the subtracted catalog and the count of surviving fragments; the epoch moves iff an entry changed |
| ImageCatalogs.ImageCatalog.Survivors | runtime/cpu/image_identity.cpp:28-41 | the fragment loop computes the surviving fragments |
| ImageCatalogs.ImageCatalog.Deactivate | runtime/cpu/image_identity.cpp:48-58 | unloads the first active entry of the identity; succeeds and moves the epoch iff there is one |
| ImageCatalogs.ImageCatalog.Find | runtime/cpu/image_identity.cpp:22-24 | the first active entry of an identity |
| ImageCatalogs.ImageCatalog.Resolve | runtime/cpu/image_identity.cpp:60-74 | the reverse loop computes the owner of the address's physical image |
| ImageCatalogs.ImageCatalog.ResolveRange | runtime/cpu/image_identity.cpp:76-97 | the reverse loops compute the range owner and refuse what is not a valid physical range |
| ImageCatalogs.ImageCatalog.Residencies | runtime/cpu/image_identity.cpp:105-113 | the active residencies, oldest first |
| ImageCatalogs.ImageCatalog.Adopt | runtime/cpu/image_identity.cpp:115-138 | the two loops leave the adopted catalog and move the epoch once |
| NativeDispatch.AdvanceKeepsCoherent | runtime/cpu/dispatch_epoch.h:7-10 | moving the epoch makes every stored verdict stale at once |
| NativeDispatch.ResolutionIff | runtime/cpu/native_dispatch.cpp:175-209 | each of the seven answers is given exactly when it is the right one: a live override of the owning image before everything, then the platform service, the BIOS table of the entry and the pad work area of the Game, then the null target, an address no active image covers, and guest code |
| NativeDispatch.InstalledOverrideAnswers | runtime/cpu/native_dispatch.cpp:46-72 | an override installed for the image that owns its address answers there at once, whatever the Game serves, and lookups say so |
| NativeDispatch.RemoveUndoesInstall | runtime/cpu/native_dispatch.cpp:74-91 | an install moves no other address and a removal leaves every answer as it was before the install |
| NativeDispatch.SuppressedIsUninstalled | runtime/cpu/native_dispatch.cpp:97-114 | a suppressed override is to every address as one never installed |
| NativeDispatch.SuppressionMovesOneAddress | runtime/cpu/native_dispatch.cpp:97-106 | a suppression can change the answer only at its own key's address |
| NativeDispatch.StepKeepsCoherent | runtime/cpu/native_dispatch.cpp:46-106 | every operation keeps every live verdict equal to the answer the inputs give now |
| NativeDispatch.EveryReachableCacheIsCoherent | runtime/cpu/host_dispatch_cache.h:18-50 | any interleaving of installs, removals, nested suppressions, catalog changes, service changes, pad memory changes and lookups leaves a coherent table |
| NativeDispatch.EveryInstalledOverrideIsComplete | runtime/cpu/native_dispatch.cpp:46-72 | in every reachable state only complete registrations are installed |
| NativeDispatch.CachedVerdictIsTheUncachedOne | runtime/cpu/native_dispatch.h:50-57 | in every reachable state the cached lookup gives the kind the uncached resolution gives now and moves no answer |
| NativeDispatch.LookupIff | runtime/cpu/native_dispatch.h:50-57 | in every reachable state a lookup says host service iff a live override owns the address, the Game serves it or it is null, else guest code iff an active image covers it, else a fault |
| NativeDispatch.SuppressedOverrideNeverAnswers | runtime/cpu/native_dispatch.cpp:93-114 | while a key is suppressed, at any depth, no lookup of its address is answered by its override |
| NativeDispatch.SuppressionScopeRestores | runtime/cpu/native_dispatch.cpp:19-30 | a suppression scope with any lookups inside leaves every answer as it found it |
| NativeDispatch.InstallKeepsCounted | runtime/cpu/native_dispatch.cpp:65-68 | the producer counts stay the numbers of installed producer keys |
| NativeDispatch.RemoveKeepsCounted | runtime/cpu/native_dispatch.cpp:79-85 | removal finds a positive count, keeps all counts exact and erases a zero one |
| NativeDispatch.VerdictCache.Find | runtime/cpu/host_dispatch_cache.h:24-30 | a verdict is found iff its slot holds this epoch and this address |
| NativeDispatch.VerdictCache.Store | runtime/cpu/host_dispatch_cache.h:31-33 | overwrites exactly one slot |
| NativeDispatch.VerdictCache.Forget | runtime/cpu/host_dispatch_cache.h:35-37 | empties exactly one slot |
| NativeDispatch.NativeDispatcher.Install | runtime/cpu/native_dispatch.cpp:46-72 | succeeds exactly for a complete registration of a free key; the producer counts stay exact, and the one word at the key is invalidated iff it succeeds |
| NativeDispatch.NativeDispatcher.Remove | runtime/cpu/native_dispatch.cpp:74-91 | succeeds exactly for an installed key; the producer counts stay exact, and the one word at the key is invalidated iff it succeeds |
| NativeDispatch.NativeDispatcher.ServicesChanged | runtime/cpu/dispatch_epoch.h:7-10 | a change of the Game or its service table moves the epoch and keeps the table coherent |
| NativeDispatch.NativeDispatcher.PushSuppression | runtime/cpu/native_dispatch.cpp:98-101 | pushes the key, forgets its address, keeps the table coherent |
| NativeDispatch.NativeDispatcher.PopSuppression | runtime/cpu/native_dispatch.cpp:103-106 | pops the key, forgets its address, keeps the table coherent |
| NativeDispatch.NativeDispatcher.ResolveHostDispatch | runtime/cpu/native_dispatch.cpp:175-209 | gives the one right answer of the seven |
| NativeDispatch.NativeDispatcher.Classify | runtime/cpu/native_dispatch.h:52-57 | the answer is the uncached one for the state at the call |
| NativeDispatch.NativeDispatcher.IsProducer | runtime/cpu/native_dispatch.cpp:332-334 | true iff some installed override at the address is a producer |
| MachineSnapshots.ExactRunsAreUnique | runtime/cpu/machine_snapshot.cpp:16-37 | two memories determine their list of maximal differing runs |
| MachineSnapshots.RunsCountDifferingBytes | runtime/cpu/machine_snapshot.cpp:16-37 | the run lengths add up to the number of differing bytes |
| MachineSnapshots.DifferingRuns | runtime/cpu/machine_snapshot.cpp:16-37 | the chunk-skipping scan visits exactly the maximal, ascending, disjoint differing runs |
| MachineSnapshots.RestoreRegion | runtime/cpu/machine_snapshot.cpp:39-51 | restoring while scanning leaves the saved bytes, notifies exactly the maximal differing runs in order and counts exactly the differing bytes |
| MachineSnapshots.Cpu.Capture | runtime/cpu/machine_snapshot.cpp:55-66 | the snapshot is the machine |
| MachineSnapshots.Cpu.RestoreInto | runtime/cpu/machine_snapshot.cpp:68-80 | the machine is the snapshot with the zero register re-established, every rewritten byte lies in a notified run, the count is the number of differing bytes |
| SideEffectJournals.LogIsTheFirstEffects | runtime/cpu/side_effect_journal.cpp:218-257 | the log holds exactly the first effects up to the bound, the refused count is the rest, the first refused effect is named |
| SideEffectJournals.DivergedAtIsTheFirstMismatch | runtime/cpu/side_effect_journal.cpp:218-228 | the recorded divergence is the first position at which the replay leaves the recording |
| SideEffectJournals.DivergenceIsLeastDifference | runtime/cpu/side_effect_journal.cpp:198-206 | the reported divergence is the least index at which the logs differ, lengths included, and none iff they are equal |
| SideEffectJournals.ReadIsServedIff | runtime/cpu/side_effect_journal.cpp:97-122 | a read is served off the live path only: in Replay with the entry whose turn it is, else the latest recorded read of that access, else zero; in Discard with zero; it is logged as served |
| SideEffectJournals.ServiceIsAdmittedIff | runtime/cpu/side_effect_journal.cpp:133-147 | which mode performs which host service, when the bound stops it and when it makes the journal unreplayable |
| SideEffectJournals.OnlyTheLivePathPerforms | runtime/cpu/side_effect_journal.cpp:128-168 | device writes, syscalls, pending work and guest time pass on the live path only |
| SideEffectJournals.SideEffectJournal.RefuseAtBound | runtime/cpu/side_effect_journal.cpp:247-257 | refuses without storing, counts, and raises only in Replay with no translated frame open |
| SideEffectJournals.SideEffectJournal.Append | runtime/cpu/side_effect_journal.cpp:218-228 | stores below the bound and notes the first mismatch, refuses at it |
| SideEffectJournals.SideEffectJournal.ReplayDeviceRead | runtime/cpu/side_effect_journal.cpp:97-122 | serves the entry whose turn it is when it is this access, else the last recorded value of the access, else zero |
| SideEffectJournals.SideEffectJournal.RecordDeviceRead | runtime/cpu/side_effect_journal.cpp:124-126 | logs the value the device gave |
| SideEffectJournals.SideEffectJournal.AdmitDeviceWrite | runtime/cpu/side_effect_journal.cpp:128-131 | logs the write and admits it only on the live path |
| SideEffectJournals.SideEffectJournal.AdmitHostService | runtime/cpu/side_effect_journal.cpp:133-147 | a nested override is admitted off the live path exactly when the log has the same one at this index; other services are unreplayable |
| SideEffectJournals.SideEffectJournal.AdmitSyscall | runtime/cpu/side_effect_journal.cpp:149-154 | a syscall is logged, unreplayable, and performed only on the live path |
| SideEffectJournals.SideEffectJournal.AdmitPendingWork | runtime/cpu/side_effect_journal.cpp:156-164 | pending work is serviced only on the live path and makes it unreplayable |
| SideEffectJournals.SideEffectJournal.ReportFirstDivergence | runtime/cpu/side_effect_journal.cpp:198-206 | reports the divergence of the journal as it stands |
| CallContracts.DeadStackWindowMeaning | runtime/cpu/override_differential_contract.cpp:22-37 | every byte of the window is one some address at most that many bytes below the stack pointer names, and the window holds all of them that lie in the stack pointer's own memory or RAM mirror; a stack pointer in no memory has none |
| CallContracts.WindowExcusesAllBelowIff | runtime/cpu/override_differential_contract.cpp:22-37 | for every stack pointer and size, every memory byte within that size below the stack pointer is in the window iff the size does not reach another memory or the mirror boundary |
| CallContracts.MirrorStartIsJudged | runtime/cpu/override_differential_contract.cpp:22-37 | at 0x80200000 the window is empty and at 0x80200010 it holds sixteen bytes, although the bytes below them are the top of main RAM |
| CallContracts.ContractRegisters | runtime/cpu/override_differential_contract.h:18-19 | by the names of the ABI, the contract looks at exactly the registers that return a result or are preserved, each once |
| CallContracts.HalfwordRegisters | runtime/cpu/override_differential_contract.cpp:58-71 | by name, the signed halfwords are VZ and IR and the unsigned ones OTZ and SZ |
| CallContracts.ArchitecturalGteSeesTheContract | runtime/cpu/override_differential_contract.cpp:59-71 | two GTE words compare equal exactly when the bits a read can see agree |
| CallContracts.CompareRegisters | runtime/cpu/override_differential_contract.cpp:81-111 | counts and lists, in order and by name, exactly the differing ones of the continuation pc, the fourteen O32 registers, COP0 status and the architectural GTE words; none iff all agree |
| CallContracts.DifferingRanges | runtime/cpu/machine_snapshot.cpp:82-94 | the ranges are ascending and their union is the set of differing physical addresses |
| CallContracts.CompareMemory | runtime/cpu/override_differential_contract.cpp:131-146 | lists and counts the maximal runs of differing bytes outside the window, in ascending order; the byte counters are the numbers of differing bytes outside and inside it |
| CallContracts.CompareSideEffects | runtime/cpu/override_differential_contract.cpp:148-170 | one difference is noted, at the least index at which the logs differ, iff they differ |
| CallContracts.JudgeCompletedCall | runtime/cpu/override_differential_contract.cpp:174-184 | Match iff the declarative calling contract holds; it lists the first of all differences and up to eight more, in the order registers, memory runs, effect index, and every counter is exact |
| CallPrograms.RecordingIsInvisible | runtime/cpu/side_effect_journal.cpp:97-168 | for every program, a recorded run does to machine, devices and clock what the run with no journal does, at every step |
| CallPrograms.TimeIsCharged | runtime/cpu/side_effect_journal.cpp:166-168 | run for real, a body moves any clock by exactly the guest time it passes |
| CallPrograms.TranslatedFramesAreCounted | runtime/cpu/side_effect_journal.cpp:182-192 | translated frames are counted as they are entered and left, and no bound fault is raised through an open one |
| CallPrograms.FirstRequestStands | runtime/cpu/execution_control.cpp:10-28 | the first exit request stands until it is consumed |
| CallPrograms.CrossingsArePerformed | runtime/cpu/native_dispatch.cpp:259-306 | with no journal each host crossing is performed, as what it is |
| CallPrograms.ReplayReachesNothing | runtime/cpu/side_effect_journal.cpp:97-168 | for every program, a replayed run never reaches a device or the clock, however it diverges |
| CallPrograms.DiscardedRunIsTheQuietRun | runtime/cpu/side_effect_journal.cpp:97-168 | for every program, a discarded run is at every step the run with no journal on devices that answer zero and take nothing, its syscalls and pending work left out |
| CallPrograms.JournalGrows | runtime/cpu/side_effect_journal.cpp:212-228 | over any run the log only grows and no mark is taken back |
| CallPrograms.LogStaysWithinBound | runtime/cpu/side_effect_journal.cpp:218-257 | over any run the log never passes the bound, and an effect was refused only once it stood there |
| CallPrograms.RecordedLogIsReplayable | runtime/cpu/side_effect_journal.cpp:133-164 | a recording with nothing unreplayable logged only device accesses and nested overrides |
| CallPrograms.ReplayOfTheSameProgramIsExact | runtime/cpu/side_effect_journal.cpp:97-147 | replaying a program against its own clean recording gives the same machine, exit and log, no divergence and no device access |
| ShadowRuns.LiveRunIsTheRunAlone | runtime/cpu/override_differential.cpp:173-179 | the journaled original does exactly what the original alone does |
| ShadowRuns.ShadowRunReachesNothing | runtime/cpu/override_differential.cpp:204-217 | the native run leaves devices and clock where the original left them |
| ShadowRuns.EndingIff | runtime/cpu/override_differential.cpp:180-250 | each of the seven endings of a shadowed call, told from the two runs alone |
| ShadowRuns.NativeEntersAtItsAddress | runtime/cpu/override_differential.cpp:204-213 | the native starts on the entry machine itself, at the override's address |
| ShadowRuns.ShadowIsTransparent | runtime/cpu/override_differential.cpp:167-251 | for every original and native, on every exit path, a shadowed call leaves the machine, devices and clock of the original alone and returns its exit |
| ShadowRuns.ExitRequestSurvivesIff | runtime/cpu/override_differential.cpp:208-230 | a pending exit request too is where the original alone left it, exactly unless the bound stopped a native with one outstanding |
| ShadowRuns.SameComputationMatches | runtime/cpu/override_differential.cpp:231-249 | a native that performs the original's own computation is judged a Match |
| ShadowRuns.RecordAccounts | runtime/cpu/side_effect_journal.cpp:124-131 | on devices that do not move with time alone, a clean recording's log determines the whole device state |
| ShadowRuns.LiveKeepsUp | runtime/cpu/side_effect_journal.cpp:97-147 | a clean replay is step for step the run the native would make live |
| ShadowRuns.MatchOfAShortOriginalIsUntruncated | runtime/cpu/override_differential.cpp:231-249 | a Match never hides a truncated native log when the original logged fewer effects than the bound |
| ShadowRuns.MatchedNativeCouldStandIn | runtime/cpu/override_differential.cpp:231-249 | a native matched against an original short of the bound, run for real on devices time alone does not move, leaves the original's device state, its memory outside the window and its contract registers |
| BoundFaults.TruncationCanHideIff | runtime/cpu/override_differential.cpp:212-249 | for every original that returns cleanly: some native overruns the bound and is judged a Match iff the original logged exactly as many effects as the bound admits |
| BoundFaults.TruncatedReplayIsJudgedAMatch | runtime/cpu/override_differential.cpp:212-249 | such calls exist on any devices from any machine |
| BoundFaults.ExitRequestCanLeakIff | runtime/cpu/override_differential.cpp:219-230 | for every original: some native leaves an exit request the original never asked for iff the original returned with nothing unreplayable and nothing refused |
| OverrideDifferentials.TalliesAreExact | runtime/cpu/override_differential.cpp:253-270 | after any calls the tallies are the numbers of sampled calls whose contract held, that ended against the native and that say nothing, they add up, the ignored dead-stack bytes are those of the sampled calls, every incomparable call has a counted reason and the first mismatch is the first |
| OverrideDifferentials.ShadowedCallIsTallied | runtime/cpu/override_differential.cpp:180-270 | a match is counted iff both bodies returned with nothing unreplayable or past the bound and the calling contract holds, an incomparable call iff the original did not return or a path is unreplayable, a mismatch otherwise; bound faults, ignored bytes, reasons and the first mismatch likewise |
| OverrideDifferentials.SampledCallsCount | runtime/cpu/override_differential.cpp:149-151 | of n calls the first ones and every k-th after are sampled: how many that is |
| OverrideDifferentials.SelectsIff | runtime/cpu/override_differential_config.h:19-27 | a key is selected by address, or by name where the selector has no address |
| OverrideDifferentials.Core.DeviceRead | runtime/psx/core/guest_memory.cpp:53-63 | a read is the program step's read: replayed, or read and recorded |
| OverrideDifferentials.Core.DeviceWrite | runtime/psx/core/guest_memory.cpp:64-68 | a write reaches the device only when admitted |
| OverrideDifferentials.Core.Cross | runtime/cpu/native_dispatch.cpp:273-279 | a host crossing is performed or withheld as the journal answers |
| OverrideDifferentials.Core.StepCrossing | runtime/cpu/native_dispatch.cpp:259-306 | one crossing step on the Core is the program semantics' step |
| OverrideDifferentials.Core.StepOnce | runtime/cpu/native_dispatch.cpp:246-250 | one step of any body on the Core is the program semantics' step |
| OverrideDifferentials.Core.RunBody | runtime/cpu/native_dispatch.cpp:246-250 | running a body on the Core is running its program |
| OverrideDifferentials.RunUnder | runtime/cpu/side_effect_journal.cpp:88-95 | a journal scope runs the body under the journal and puts the previous one back |
| OverrideDifferentials.OverrideDifferential.StatsFor | runtime/cpu/override_differential.cpp:135-147 | finds the key's tallies or appends fresh ones |
| OverrideDifferentials.OverrideDifferential.Record | runtime/cpu/override_differential.cpp:253-270 | enters one outcome into one key's tallies and no other's |
| OverrideDifferentials.OverrideDifferential.JudgeNative | runtime/cpu/override_differential.cpp:236-249 | unreplayable, then not returned, then the contract, in that order; the dead-stack count is the judged one |
| OverrideDifferentials.OverrideDifferential.RunNative | runtime/cpu/override_differential.cpp:204-249 | rolls back, replays, rolls forward: the Core ends on the original's machine and devices, with the ending and the dead-stack count of the shadow run |
| OverrideDifferentials.OverrideDifferential.RunBoth | runtime/cpu/override_differential.cpp:167-251 | Core, result and ending are those of the declarative shadow on every path |
| OverrideDifferentials.OverrideDifferential.ShadowCall | runtime/cpu/override_differential.cpp:167-251 | Core, result and tallies are those of the declarative shadow, and the tallies move as the two runs say: a match iff the contract holds between two returns |
| OverrideDifferentials.OverrideDifferential.CountAndShadow | runtime/cpu/override_differential.cpp:159-164 | one selected call is counted, and sampled and shadowed exactly when the configuration samples that count; no other tallies move |
| OverrideDifferentials.OverrideDifferential.Intercept | runtime/cpu/override_differential.cpp:153-165 | an unselected or nested call changes nothing; a selected one is counted and shadowed exactly when sampled, and no other key's tallies move |
| SegmentClocks.CommitsAreHalfTheRise | runtime/cpu/segment_clock.cpp:5-22 | whatever accesses a segment made, its commits are half the counter's rise with the odd cycle carried |
| SegmentClocks.SegmentChargedExactlyIff | runtime/cpu/segment_clock.cpp:11-26 | commits plus remainder charge the instruction count iff the rise stays within twice it plus one |
| SegmentClocks.OneInstructionChargedTwice | runtime/cpu/segment_clock.cpp:11-26 | one access at cycle 4 of a one-instruction segment is charged two |
| SegmentClocks.SteadySegmentChargedExactly | runtime/cpu/segment_clock.cpp:11-26 | on a steady counter the charge is the instruction count, however many accesses there were |
| SegmentClocks.SegmentClockLedger.Commit | runtime/cpu/segment_clock.cpp:11-22 | one commit moves the ledger and returns the newly committed instructions |
| SegmentClocks.SegmentClockLedger.BeginSegment | runtime/cpu/segment_clock.cpp:5-9 | a fresh ledger |
| LightrecExecutors.TargetCycle | runtime/cpu/lightrec_executor.cpp:34-38 | two Lightrec cycles a tick, or the most that fits 32 bits |
| LightrecExecutors.SegmentBudget | runtime/cpu/lightrec_executor.cpp:544-556 | with a Game a segment passes neither deadline nor what is left of the call and spends up to the first of them; without one, what is left |
| LightrecExecutors.EnterBlockKeepsLimits | runtime/cpu/lightrec_executor.cpp:225-240 | fallback admissions never exceed the policy, hazards apart; a stop for pending work needs raised work and no skip |
| LightrecExecutors.EnterBlockIff | runtime/cpu/lightrec_executor.cpp:298-323 | what stops a block and in which order: its return address, pending work that is not to be skipped once, a host service, a fallback past the limit |
| LightrecExecutors.DecisionIff | runtime/cpu/lightrec_executor.cpp:577-684 | each of the eleven things the loop can do after a segment and exactly when, whatever set of flags is raised together |
| LightrecExecutors.GoesOnIff | runtime/cpu/lightrec_executor.cpp:577-684 | when the loop goes on, from which pc, and what a service made on the way leaves: pending work, ticks, dispatches and the one boundary to skip |
| LightrecExecutors.WalkCountsInterpreted | runtime/cpu/lightrec_executor.cpp:225-240 | over any segment the admission counter rises by exactly the number of executed blocks that were interpreted, hazards apart |
| LightrecExecutors.PassProgresses | runtime/cpu/lightrec_executor.cpp:577-684 | for any set of exit flags, a pass that goes on executes, dispatches or spends the one idle pass; one that leaves reports truthfully why, where and after how many cycles |
| LightrecExecutors.GoingOnRaisesPotential | runtime/cpu/lightrec_executor.cpp:536-685 | every pass that goes on raises a measure bounded by the budgets |
| LightrecExecutors.EveryRunIsBounded | runtime/cpu/lightrec_executor.cpp:536-685 | every run of the loop is finite, with at most twice the cycle and dispatch budgets in passes |
| LightrecExecutors.LightrecExecutor.CommitDeviceClock | runtime/cpu/lightrec_executor.cpp:165-183 | a device access charges exactly what the ledger commits, nothing while guest time is withheld |
| LightrecExecutors.LightrecExecutor.ExecuteBlock | runtime/cpu/lightrec_executor.cpp:165-183 | a block's accesses keep clock and ledger in step, and each finds the clock at one tick for every two cycles since the segment began |
| LightrecExecutors.LightrecExecutor.RunSegment | runtime/cpu/lightrec_executor.cpp:298-323 | a segment executes exactly the blocks the callbacks let through, up to the one they stop at, with the clock at the committed instructions and every device access on time |
| LightrecExecutors.LightrecExecutor.AccountExecuted | runtime/cpu/lightrec_executor.cpp:495-502 | 32-bit chunks charge the exact remainder, or nothing while withheld |
| LightrecExecutors.LightrecExecutor.RunAndAccount | runtime/cpu/lightrec_executor.cpp:540-575 | a segment and its account together charge exactly its instructions, and every device access on the way finds the clock on time |
| LightrecExecutors.LightrecExecutor.RunPass | runtime/cpu/lightrec_executor.cpp:540-684 | one pass is given cycles up to the first of what is left, a due field and a device event, with the target for it, walks its segment, charges exactly what it executed and goes on or leaves as the flags say |
| LightrecExecutors.LightrecExecutor.RunPasses | runtime/cpu/lightrec_executor.cpp:536-685 | the passes, answered in turn, follow one another to an end, with the counters and the clock equal to the totals of what was executed and what services charged |
| LightrecExecutors.LightrecExecutor.ExecuteWithBoundary | runtime/cpu/lightrec_executor.cpp:506-686 | starts at the guest address, terminates within the budgets, positive segment budgets and fitting targets, dispatches within their limit, no more interpreted blocks executed than the policy allows, a truthful result at the pc where it stopped, and a clock advanced by exactly the instructions executed plus nested services |
| ExecutorTurns.WalkEnters | runtime/cpu/lightrec_executor.cpp:298-323 | no block executed is the return address or a dispatched host service, and a stop names the true reason |
| ExecutorTurns.EveryPassCanPlay | runtime/cpu/lightrec_executor.cpp:536-685 | wherever guest and loop stand there is a pass the executor can make that shows the guest's next steps |
| ExecutorTurns.TraceStaysOnTheTurn | runtime/cpu/lightrec_executor.cpp:536-685 | after every pass the loop stands on the guest's run with the rest of the turn still to come |
| ExecutorTurns.LoopEndsAsTheTurn | runtime/cpu/lightrec_executor.cpp:506-686 | over a deterministic guest the loop ends in the reason, pc, cycles and state of one uninterrupted turn, whatever the deadlines cut its segments to and however often pending work is serviced |
| BlobCodecs.ValueOfEncode | runtime/psx/platform/blob_codec.h:16-30 | reading the little-endian bytes of a number that fits gives the number |
| BlobCodecs.EncodeOfValue | runtime/psx/platform/blob_codec.h:90-104 | writing the number some bytes hold gives the bytes |
| BlobCodecs.ReadInt | runtime/psx/platform/blob_codec.h:83-104 | a short read latches, a full one does not |
| BlobCodecs.ShortReadIff | runtime/psx/platform/blob_codec.h:90-104 | a read past the latch gives zero, a short one keeps the bytes there were and latches, a full one is the number its bytes write |
| BlobCodecs.BlobIsReadIff | runtime/psx/platform/blob_codec.h:125-135 | a blob is read exactly when its length and all its bytes are there |
| BlobCodecs.ReadBlobOfBlob | runtime/psx/platform/blob_codec.h:125-135 | a length-prefixed run reads back whole |
| ResumableCalls.TurnIsAStretch | runtime/cpu/lightrec_executor.cpp:536-685 | a turn, which `LoopEndsAsTheTurn` shows to be the whole loop, is a stretch of the unsliced run; it returns at the first boundary that is the return address, an exit it cannot resume from was asked for by its last step, and a free exhausted turn was starved of cycles or dispatches |
| ResumableCalls.IdleTurnIff | runtime/cpu/resumable_guest_call.cpp:96-103 | a turn with cycles to spend ends exhausted and uncharged iff free host services use up its dispatches first or a step asks for that exit; it then stands as many steps on as it ran, none iff it met a service with no dispatch at all |
| ResumableCalls.IdleTurnCanMove | runtime/cpu/resumable_guest_call.cpp:96-103 | a guest that is dispatched as often as any budget allows, changes memory each time and is charged nothing |
| ResumableCalls.FirstTurn | runtime/cpu/resumable_guest_call.cpp:64-113 | the first turn returns, suspends or is refused at that point of the run: suspended exactly by a field barrier, a yield or a charged exhausted budget, which only its last step may have asked for |
| ResumableCalls.LaterTurn | runtime/cpu/resumable_guest_call.cpp:64-113 | so does a later one, whatever became of the live registers in between |
| ResumableCalls.CallerPcIsPutBack | runtime/cpu/native_dispatch.cpp:147-160 | a turn leaves the machine where it ended but for the pc of a native caller |
| ResumableCalls.RefusedUnrunIff | runtime/cpu/resumable_guest_call.cpp:64-72 | a call not pending or at its cap, and no other, is refused with nothing run and nothing changed |
| ResumableCalls.SlicedCallIsTheUnslicedRun | runtime/cpu/resumable_guest_call.cpp:64-113 | over any turns, registers clobbered and the call saved and loaded at will between them, a call is the unsliced run: same state, value and cycles, turns within the cap, refused only by its cap, an exit the run asked for or a starved budget |
| ResumableCalls.UncappedCallReturns | runtime/cpu/resumable_guest_call.cpp:148-170 | with no cap and unstarved turns, a run that returns after n resumable steps has returned by turn n + 1 |
| ResumableCalls.SuspendedTurnsAdvance | runtime/cpu/resumable_guest_call.cpp:96-103 | every suspending turn runs at least one step, a free yield or field barrier included |
| ResumableCalls.RefusedCallStandsIff | runtime/cpu/resumable_guest_call.cpp:89-103 | for every guest and every refused turn: the call still stands where the machine is iff it met its cap or the live registers are those it held |
| ResumableCalls.RefusedCallStandsSomewhereIff | runtime/cpu/resumable_guest_call.cpp:89-103 | where every step is charged, no other point of the run will do |
| ResumableCalls.NextTurnGoesOnIff | runtime/cpu/resumable_guest_call.cpp:74-80 | the next turn goes on from the machine as it is, under every budget, iff the call holds the live registers |
| ResumableCalls.EmptyTurnStandsIff | runtime/cpu/resumable_guest_call.cpp:74-103 | an empty later turn leaves the call standing; after an empty first turn it stands iff the never-captured registers happen to be the live ones |
| ResumableCalls.RefusedCallCanLeaveTheRun | runtime/cpu/resumable_guest_call.cpp:89-103 | from any machine, entry and budget there is a guest whose refused first turn leaves the call on no point of its run |
| ResumableCalls.RegistersRoundTrip | runtime/cpu/resumable_guest_call.cpp:123-139 | the kept register file survives its bytes |
| ResumableCalls.LoadOfSave | runtime/cpu/resumable_guest_call.cpp:115-146 | a saved call loads back whole with the reader just past it |
| ResumableCalls.SaveOfLoad | runtime/cpu/resumable_guest_call.cpp:127-146 | whatever loads was saved: the bytes read are those of the loaded call up to the flag, of which any value but zero is true |
| ResumableCalls.Reloaded | runtime/cpu/resumable_guest_call.cpp:115-146 | saving and loading a call between turns is no change |
| GuestCores.GuestCore.Look | runtime/cpu/lightrec_executor.cpp:314-317 | the cached verdict and the resolution behind it answer as the dispatcher's inputs do now |
| GuestCores.GuestCore.RunBoundaries | runtime/cpu/lightrec_executor.cpp:298-323 | the loop crosses exactly the boundaries of the run, each as the dispatcher resolves it, and ends as the specified turn |
| GuestCores.GuestCore.ExecuteSuppressed | runtime/cpu/native_dispatch.cpp:363-377 | with the key pushed on the dispatcher the stretch is the run under that suppression, no boundary it crosses resolves to the key's override, and the dispatcher sees the same afterwards |
| GuestCores.GuestCore.DispatchGuest | runtime/cpu/native_dispatch.cpp:308-324 | a host service at the entry is dispatched directly, any other entry is executed |
| GuestCores.GuestCore.ExecuteFirst | runtime/cpu/resumable_guest_call.cpp:77-78 | the first turn of an original or of any other call |
| GuestCores.GuestCore.ExecuteResumed | runtime/cpu/resumable_guest_call.cpp:79-80 | a resumed turn, with the original's suppression re-established |
| GuestCores.SuppressedKeyNeverAnswers | runtime/cpu/native_dispatch.cpp:93-114 | over any run under a suppression no boundary is answered by the suppressed override |
| GuestCores.ResumableGuestCall.Begin | runtime/cpu/resumable_guest_call.cpp:32-62 | a fresh pending call with the return address latched into ra |
| GuestCores.ResumableGuestCall.AdvanceTurn | runtime/cpu/resumable_guest_call.cpp:64-113 | one turn is the specified advance of the guest as the dispatcher resolves it; with a key, no boundary it crosses is answered by that override |
| GuestCores.ResumableGuestCall.Classify | runtime/cpu/resumable_guest_call.cpp:81-112 | returned, refused or suspended, in that order |
| GuestCores.ResumableGuestCall.LoadFrom | runtime/cpu/resumable_guest_call.cpp:127-146 | loads exactly what decodes and changes nothing otherwise |
| GuestCores.CallOriginalResumingToExit | runtime/cpu/resumable_guest_call.cpp:197-207 | ends within 65 turns at the first point of the unsliced run under the suppression that is the caller or asks for an exit other than an exhausted budget; an exhausted budget is reported only after 65 turns that all moved or a turn charged nothing; an original that returns within 64 steps under unstarved budgets is resumed to that return; no boundary is answered by the override, and the dispatcher sees the same afterwards |
| GuestCores.ResumedToItsReturn | runtime/cpu/resumable_guest_call.cpp:200-206 | whatever comes out as an exit is the return, with the run's own cycles, of any run that returns within 64 steps under budgets that do not starve it |
| GuestWriterLatches.BehindIsLastSeen | runtime/cpu/guest_writer_latch.h:23-31 | at any depth, the pop-through search finds the innermost slot within its 63-frame reach that returns here |
| GuestWriterLatches.CallsToIff | runtime/cpu/guest_writer_latch.h:71-79 | for every word, site, target, register and 256 MB region: the decoder answers exactly for a `jal` whose target is the entry's physical address and a `jalr` whose register still holds it |
| GuestWriterLatches.LastWordOfARegionIff | runtime/cpu/guest_writer_latch.h:73-77 | that target is the one the processor takes from the delay slot unless the `jal` is the last word of its region |
| GuestWriterLatches.FrameIsOpenedIff | runtime/cpu/guest_writer_latch.h:17-45 | after any run over unchanging code from a cleared ring, an entry opens a frame iff it is no return, no loop back and the word before its ra calls it; nothing else writes a slot |
| GuestWriterLatches.ReturnClosesIff | runtime/cpu/guest_writer_latch.h:19-31 | a return closes the call stack down to the innermost frame that returns here, only the very innermost when the address is not ra; nothing else closes one |
| GuestWriterLatches.EnterKeepsHoldingIff | runtime/cpu/guest_writer_latch.h:17-45 | at any nesting, on a lost frame or not, a block entry leaves ring and stack at the same depth iff what it returns to is answered alike by the stack and by the slots, and then the ring still holds the stack above the lost frames |
| GuestWriterLatches.RunKeepsHolding | runtime/cpu/guest_writer_latch.h:17-45 | so does every run of such entries |
| GuestWriterLatches.LostFrameIsNamedByItsOverwriter | runtime/cpu/guest_writer_latch.h:54-69 | at a lost frame the ring names its overwriter, and is right iff the two entries are equal |
| GuestWriterLatches.EntryAgreesIff | runtime/cpu/guest_writer_latch.h:17-56 | from any ring that holds its stack, an entry leaves both with the same depth and innermost function iff it is answerable and the depth it comes to is no lost frame of another function |
| GuestWriterLatches.RingFollowsTheCallStackIff | runtime/cpu/guest_writer_latch.h:17-56 | from any cleared ring, for every run of answerable entries and every next entry: the depths stay equal iff the entry is answerable, the innermost function is right iff it also does not come to a lost frame of another function, judged on the slots before it |
| GuestWriterLatches.RingIsTheCallStack | runtime/cpu/guest_writer_latch.h:54-56 | from any cleared ring, for every run nested within 64 frames nothing is lost and the ring reports the depth and innermost function of an unbounded call stack |
| GuestWriterLatches.EnterRingAll | runtime/cpu/guest_writer_latch.h:17-45 | for every run at all the ring stays well formed and its depth never underflows |
| GuestWriterLatches.SixtyFiveDeepIsMisattributed | runtime/cpu/guest_writer_latch.h:65-69 | 65 calls and 64 returns leave the ring naming the wrong function |
| GuestWriterLatches.GuestWriterLatch.FindBehind | runtime/cpu/guest_writer_latch.h:23-31 | the search loop computes that distance |
| GuestWriterLatches.GuestWriterLatch.EnterBlock | runtime/cpu/guest_writer_latch.h:17-45 | one block entry updates the ring as specified |
| GuestWriterLatches.GuestWriterLatch.Function | runtime/cpu/guest_writer_latch.h:53-56 | the innermost call target, zero when there is none |
| GuestWriterLatches.GuestWriterLatch.Clear | runtime/cpu/guest_writer_latch.h:57-62 | no call is open; the old slots stay |
| Invalidations.EveryWrittenByteIsCovered | runtime/cpu/invalidation.cpp:26-43 | the physical image of every written byte lies in an invalidated segment, wrap-around included |
| Invalidations.EveryInvalidatedWordWasWritten | runtime/cpu/invalidation.cpp:14-22 | every invalidated word holds a byte that was written |
| Invalidations.SegmentsAreWordsOfThePhysicalSpace | runtime/cpu/invalidation.cpp:14-43 | at most two segments, nonempty, word-aligned and inside the physical space; everything is dropped exactly for a write of the whole space |
| Invalidations.Translations.InvalidatePhysicalSegment | runtime/cpu/invalidation.cpp:14-22 | issues the word-aligned segment, or nothing for an empty one |
| Invalidations.Translations.NotifyExecutableWrite | runtime/cpu/invalidation.cpp:26-43 | issues exactly the specified segments in order |
| PadRecordings.ButtonsOfMask | tools/psx_pad.py:49-65 | the word of a held set names exactly that set |
| PadRecordings.MaskOfButtons | tools/psx_pad.py:49-65 | every 16-bit word is the word of the set it names |
| PadRecordings.HeldClearsItsBit | tools/psx_pad.py:46-65 | a button's bit is set exactly while it is not held |
| PadRecordings.PressTakesItsBit | tools/psx_pad.py:46-65 | nothing held is all ones and pressing a button takes its bit away |
| PadRecordings.PrintOfParse | tools/psx_pad.py:131-199 | printing what was parsed gives back the file byte for byte, and what parses is well formed |
| PadRecordings.RefusalNamesTheDefect | tools/psx_pad.py:131-176 | every refusal names what is wrong: identifier, header length, version, card kind, or the first record that does not follow from the phases read before it |
| PadRecordings.ParseOfPrintIff | tools/psx_pad.py:131-199 | what the printer prints parses to the same recording iff it has a known card, a phase and frames in every phase |
| PadRecordings.PrintedButRefused | tools/psx_pad.py:131-199 | an unknown card kind, no phase and one phase without frames print, and the parser refuses each with its own error |
| PadRecordings.AbsoluteMasks | tools/psx_pad.py:202-220 | refuses exactly the empty, phase-keyed and odd-length files; otherwise the frames are the file |
| PadRecordings.RunsOf | tools/psx_pad.py:257-262 | the runs expand to the frames, none is empty and no neighbours are equal |
| PadRecordings.Migrate | tools/psx_pad.py:246-265 | a migrated file parses to one unkeyed phase on an unknown card whose runs expand to the source; writing fails exactly when a run outgrows 32 bits |
| PadRecordings.ParseFile | tools/psx_pad.py:131-176 | the record loop computes the parser, every refusal included |
| OracleSnapshots.CollectedFieldsAreASchema | tools/oracle/oracle_snapshot.cpp:46-57 | whatever is offered the entries form a schema, and the collection is valid iff the offered fields do and are the entries |
| OracleSnapshots.WholeLanesIff | tools/oracle/oracle_snapshot.cpp:46-57 | a field is whole lanes of one, two, four or eight bytes |
| OracleSnapshots.FieldCollector.Offer | tools/oracle/oracle_snapshot.cpp:46-57 | takes an acceptable field, otherwise marks the collection invalid; the entries stay a schema |
| OracleSnapshots.TransferUndoesItself | tools/oracle/oracle_snapshot.cpp:103-115 | taking a field out of its storage and putting it back changes nothing on either kind of host |
| OracleSnapshots.TransferMirrorsEachLane | tools/oracle/oracle_snapshot.cpp:108-113 | on a big-endian host each lane is mirrored in place and nothing crosses a lane |
| OracleSnapshots.TransferInto | tools/oracle/oracle_snapshot.cpp:103-115 | the copy loops leave the transferred bytes in the buffer |
| OracleSnapshots.CheckFields | tools/oracle/oracle_snapshot.cpp:175-199 | for any bytes whatever, every offset found has its whole field inside them |
| OracleSnapshots.ImageOfDecoded | tools/oracle/oracle_snapshot.cpp:117-199 | an accepted image is byte for byte the image of the lanes its offsets name |
| OracleSnapshots.DecodeOfImageIff | tools/oracle/oracle_snapshot.cpp:117-199 | for every schema the image of any lanes decodes iff it is within the size limit with valid state values, and then the offsets name exactly each field's bytes |
| OracleSnapshots.ScanFields | tools/oracle/oracle_snapshot.cpp:175-198 | the cursor loop computes the field checks, stopping at the first refused |
| OracleSnapshots.OracleState.Save | tools/oracle/oracle_snapshot.cpp:117-137 | the image of the storage's lanes |
| OracleSnapshots.OracleState.Check | tools/oracle/oracle_snapshot.cpp:168-199 | decodes the header and the fields |
| OracleSnapshots.OracleState.Restore | tools/oracle/oracle_snapshot.cpp:290-293 | every field takes the bytes its offset names |
| OracleSnapshots.OracleState.Load | tools/oracle/oracle_snapshot.cpp:284-293 | restores every field of an image that decodes and changes none otherwise |
| OracleSnapshots.SaveThenLoad | tools/oracle/oracle_snapshot.cpp:244-301 | a saved snapshot loads iff it is within the limit with valid state values, and then restores every field |
| OracleFormat.ChecksumOf | tools/oracle/oracle_snapshot.cpp:94-100 | the loop computes the 32-bit FNV-1a hash of the field bytes |
| OracleFormat.KnownAnswers | tools/oracle/oracle_snapshot.cpp:94-100 | the published hashes of the empty string and of the letter a |
| OracleFormat.StateValueIsTheFirstWord | tools/oracle/oracle_snapshot.cpp:139-140 | a state check sees a field's first little-endian word, or the single byte of a shorter one |
| OracleFormat.ChecksumIsSensitive | tools/oracle/oracle_snapshot.cpp:94-100 | no next byte hides a difference in the hash and two next bytes always make one |
| OracleFormat.SteeringValues | tools/oracle/oracle_snapshot.cpp:139-166 | what each field that steers execution may hold |
| OracleFormat.OneDamagedByteIsRefused | tools/oracle/oracle_snapshot.cpp:168-199 | of every accepted snapshot of every schema, one changed byte anywhere makes the program refuse it |
| OracleFormat.OwnSnapshotDecodesIff | tools/oracle/oracle_snapshot.cpp:117-199 | in the program's own format a snapshot of any lanes decodes iff it is within the size limit and every steering field holds an admissible value, and then names each field's bytes |

## Left out

- Lightrec itself, block compilation, register copying and GTE arithmetic: foreign code, an abstract step here.
- Logging, ledgers, JSON reports, the store observer and the call census: text output and counters.
- Function reach, call attribution and host-turn scheduling: easier repeats of the cache, stack and latch patterns.
- The UI, the build and decompilation tools, the oracle sessions and its CPU shim: no logic the theorems need.
- Producer emission scopes, presentation state and any device a native body touches directly in C++: declared
  unobserved by the differential (runtime/cpu/override_differential_report.cpp:21-23), so outside `ShadowIsTransparent`.
- 64-bit wrap-around of the epoch, the revision, image identities and cycle totals: unbounded naturals.
- The statistics `restoredRanges`, the largest sampled call and the first bound fault's text.
- Aborts on misuse (a second `begin`, an entry no image owns, a refused `callToReturn`): preconditions or not modelled.
- The spin detector and host-turn request inside `accountGuestInstructions`: only the clock advance is modelled.
- COP0 and the GTE across turns: a suspended call does not keep them (runtime/cpu/resumable_guest_call.cpp:111), so
  they belong to the memory the theorems assume untouched between turns.
- What a host service reached inside a resumable call does to the dispatcher itself (an install, an image load, the pad
  work area starting to answer): the resumable-call theorems hold the dispatcher's inputs fixed over the call.
- Reloading DPCR after a load, opening and reading snapshot files, and the owners' own field lists.
- The pad tool's command line, its summaries and the runtime's C++ reader of the same format.
- LightrecExecutors.LightrecExecutor.ExecuteWithBoundary: does not model the instruction stream; the charge is exact for
  segments whose counter is steady, as `Admissible` assumes, and `SegmentChargedExactlyIff` says what happens to any
  other.
- ShadowRuns.MatchedNativeCouldStandIn: needs devices that do not move with guest time alone and no pending work
  withheld from the native, since the shadow path passes no time and services nothing by design.
- ResumableCalls.SlicedCallIsTheUnslicedRun: fewer than 2^32 - 1 turns, so that the 32-bit turn counter does not wrap.
