/** Shadowing: two arbitrary programs on one machine, the second on the first one's log, and what an observer of the
    machine, the devices and the clock can tell afterwards. */
module ShadowRuns {
  import opened GuestTypes
  import opened MachineSnapshots
  import opened SideEffectJournals
  import opened CallContracts
  import opened CallPrograms

  /** A body and a number of steps by which it has ended. */
  datatype Call<!C> = Call(program: Program<C>, start: C, steps: nat)

  datatype CoreState<W> = CoreState(machine: Machine, request: Option<ExecutionResult>, world: W)

  function RunAlone<C, W>(d: Devices<W>, call: Call<C>, core: CoreState<W>): Exec<C, W> {
    Steps(d, call.program, Begin(call.start, core.machine, core.request, core.world, None), call.steps)
  }

  function RunLive<C, W>(d: Devices<W>, call: Call<C>, core: CoreState<W>): Exec<C, W> {
    Steps(d, call.program, Begin(call.start, core.machine, core.request, core.world, Some(NewJournal(Record, []))),
          call.steps)
  }

  /** The rolled-back entry machine with the override's entry address as its pc. */
  function NativeEntry(entry: Machine, address: Word): Machine {
    Restored(entry).(pc := address)
  }

  function RunShadow<C, D, W>(d: Devices<W>, native: Call<D>, entry: Machine, address: Word,
                              live: Exec<C, W>): Exec<D, W>
    requires live.journal.Some?
  {
    Steps(d, native.program,
          Begin(native.start, NativeEntry(entry, address), live.request, live.world,
                Some(NewJournal(Replay, live.journal.value.effects))),
          native.steps)
  }

  /** The exit of a native body: the one it requested, at the continuation if it names no pc, or a return there. */
  function HostLeafResult(request: Option<ExecutionResult>, continuation: Word): ExecutionResult {
    match request
    case None => ExecutionResult(GuestReturn, continuation, 0)
    case Some(r) => if r.guestPc == 0 then r.(guestPc := continuation) else r
  }

  datatype Ending =
    | OriginalDidNotReturn
    | OriginalUnreplayable
    | OriginalOverran
    | NativeOverran
    | NativeUnreplayable
    | NativeDidNotReturn
    | Judged(contractHolds: bool)

  function VerdictOf(ending: Ending): Verdict {
    match ending
    case OriginalDidNotReturn => Incomparable
    case OriginalUnreplayable => Incomparable
    case NativeUnreplayable => Incomparable
    case OriginalOverran => Mismatch
    case NativeOverran => Mismatch
    case NativeDidNotReturn => Mismatch
    case Judged(holds) => if holds then Match else Mismatch
  }

  /** `ignored` is the number of differing dead-stack bytes the judgement passed over. */
  datatype Shadowed<W> = Shadowed(core: CoreState<W>, result: ExecutionResult, ending: Ending, ignored: nat)

  /** Both bodies of the call end within their steps. */
  ghost predicate BothEnd<C, D, W>(d: Devices<W>, original: Call<C>, native: Call<D>, address: Word,
                                   core: CoreState<W>) {
    && RunAlone(d, original, core).status.Exited?
    && (RunLive(d, original, core).journal.Some? ==>
          !RunShadow(d, native, core.machine, address, RunLive(d, original, core)).status.Running?)
  }

  /** How a native that ran to its end is judged: `machine`, `request` and `replay` are what it left. */
  ghost function JudgeEnding(original: Observation, machine: Machine, request: Option<ExecutionResult>, replay: Journal,
                             entry: Machine, deadBytes: Word): Ending
  {
    var native := HostLeafResult(request, entry.gpr[RA]);
    if replay.unreplayable.Some? then NativeUnreplayable
    else if !native.Returned() then NativeDidNotReturn
    else
      Judged(ContractHolds(original, Observation(machine, native.guestPc, replay.effects),
                           DeadStackWindow(entry.gpr[SP], deadBytes)))
  }

  /** The differing bytes below the entry stack pointer, when a comparison was made at all. */
  ghost function IgnoredBytes(ending: Ending, original: Machine, native: Machine, entry: Machine,
                              deadBytes: Word): nat {
    var window := DeadStackWindow(entry.gpr[SP], deadBytes);
    if ending.Judged? then |DifferingAddresses(original, native) * Interval(window.begin, window.end)| else 0
  }

  ghost function Shadow<C, D, W>(d: Devices<W>, original: Call<C>, native: Call<D>, address: Word, core: CoreState<W>,
                                 deadBytes: Word): Shadowed<W>
    requires BothEnd(d, original, native, address, core)
  {
    var live := RunLive(d, original, core);
    LiveRunIsTheRunAlone(d, original, core);
    var after := CoreState(live.machine, live.request, live.world);
    var result := live.status.result;
    if !result.Returned() then Shadowed(after, result, OriginalDidNotReturn, 0)
    else if live.journal.value.unreplayable.Some? then Shadowed(after, result.(cycles := 0), OriginalUnreplayable, 0)
    else if live.journal.value.violation.Some? then Shadowed(after, result.(cycles := 0), OriginalOverran, 0)
    else
      var shadow := RunShadow(d, native, core.machine, address, live);
      ShadowRunReachesNothing(d, native, core.machine, address, live);
      var rolled := CoreState(Restored(live.machine), None, shadow.world);
      if shadow.status == Stopped then
        Shadowed(rolled.(request := shadow.request), result.(cycles := 0), NativeOverran, 0)
      else
        var ending := JudgeEnding(Observation(live.machine, result.guestPc, live.journal.value.effects), shadow.machine,
                                  shadow.request, shadow.journal.value, core.machine, deadBytes);
        Shadowed(rolled, result.(cycles := 0), ending,
                 IgnoredBytes(ending, live.machine, shadow.machine, core.machine, deadBytes))
  }

  lemma LiveRunIsTheRunAlone<C, W>(d: Devices<W>, original: Call<C>, core: CoreState<W>)
    ensures var live := RunLive(d, original, core);
            live.journal.Some? && live.(journal := None) == RunAlone(d, original, core)
  {
    RecordingIsInvisible(d, original.program,
                         Begin(original.start, core.machine, core.request, core.world, Some(NewJournal(Record, []))),
                         original.steps);
  }

  lemma ShadowRunReachesNothing<C, D, W>(d: Devices<W>, native: Call<D>, entry: Machine, address: Word,
                                         live: Exec<C, W>)
    requires live.journal.Some?
    ensures var shadow := RunShadow(d, native, entry, address, live);
            && shadow.world == live.world && shadow.journal.Some?
            && shadow.journal.value.mode == Replay && shadow.journal.value.recorded == live.journal.value.effects
  {
    ReplayReachesNothing(d, native.program,
                         Begin(native.start, NativeEntry(entry, address), live.request, live.world,
                               Some(NewJournal(Replay, live.journal.value.effects))),
                         native.steps);
  }

  // ---- what decides the ending -----------------------------------------------------------------------

  predicate ReturnedToCaller<C, W>(live: Exec<C, W>) {
    live.status.Exited? && live.status.result.reason == GuestReturn
  }

  predicate CanBeReplayed<C, W>(s: Exec<C, W>) {
    s.journal.Some? && s.journal.value.unreplayable.None?
  }

  predicate FitsTheLog<C, W>(s: Exec<C, W>) {
    s.journal.Some? && s.journal.value.violation.None?
  }

  /** The original gave the native something to be held against. */
  predicate Comparable<C, W>(live: Exec<C, W>) {
    ReturnedToCaller(live) && CanBeReplayed(live) && FitsTheLog(live)
  }

  /** The native ended of itself, with nothing withheld that a judgement would need. */
  predicate EndedCleanly<C, W>(shadow: Exec<C, W>) {
    shadow.status != Stopped && CanBeReplayed(shadow)
  }

  /** A native that asked for no exit, or for a return, went back to its caller. */
  predicate WentBack<C, W>(shadow: Exec<C, W>) {
    shadow.request.None? || shadow.request.value.reason == GuestReturn
  }

  /** Both bodies were run to a return, from the same entry, and their contract holds. */
  ghost predicate HoldsUp<C, D, W>(live: Exec<C, W>, shadow: Exec<D, W>, entry: Machine, deadBytes: Word) {
    && Comparable(live) && EndedCleanly(shadow) && WentBack(shadow)
    && var continuation := if shadow.request.Some? && shadow.request.value.guestPc != 0
                           then shadow.request.value.guestPc else entry.gpr[RA];
       ContractHolds(Observation(live.machine, live.status.result.guestPc, live.journal.value.effects),
                     Observation(shadow.machine, continuation, shadow.journal.value.effects),
                     DeadStackWindow(entry.gpr[SP], deadBytes))
  }

  /** One of the two paths did something no replay can serve, or the original went elsewhere. */
  predicate CannotCompare<C, D, W>(live: Exec<C, W>, shadow: Exec<D, W>) {
    || !ReturnedToCaller(live) || !CanBeReplayed(live)
    || (FitsTheLog(live) && shadow.status != Stopped && !CanBeReplayed(shadow))
  }

  /** The native starts on the entry machine itself, at the override's address. */
  lemma NativeEntersAtItsAddress(entry: Machine, address: Word)
    requires entry.gpr[ZERO] == 0
    ensures NativeEntry(entry, address).pc == address && NativeEntry(entry, address).(pc := entry.pc) == entry
  {
  }

  /** All seven endings of a shadowed call, told from the two runs. */
  lemma {:induction false} EndingIff<C, D, W>(d: Devices<W>, original: Call<C>, native: Call<D>, address: Word,
                                              core: CoreState<W>, deadBytes: Word)
    requires BothEnd(d, original, native, address, core)
    ensures var live := RunLive(d, original, core);
            live.journal.Some? &&
            var shadow := RunShadow(d, native, core.machine, address, live);
            var ending := Shadow(d, original, native, address, core, deadBytes).ending;
            && (ending == OriginalDidNotReturn <==> !ReturnedToCaller(live))
            && (ending == OriginalUnreplayable <==> ReturnedToCaller(live) && !CanBeReplayed(live))
            && (ending == OriginalOverran <==> ReturnedToCaller(live) && CanBeReplayed(live) && !FitsTheLog(live))
            && (ending == NativeOverran <==> Comparable(live) && shadow.status == Stopped)
            && (ending == NativeUnreplayable <==>
                Comparable(live) && shadow.status != Stopped && !CanBeReplayed(shadow))
            && (ending == NativeDidNotReturn <==> Comparable(live) && EndedCleanly(shadow) && !WentBack(shadow))
            && (ending == Judged(true) <==> HoldsUp(live, shadow, core.machine, deadBytes))
            && (ending == Judged(false) <==> Comparable(live) && EndedCleanly(shadow) && WentBack(shadow) &&
                                             !HoldsUp(live, shadow, core.machine, deadBytes))
  {
    LiveRunIsTheRunAlone(d, original, core);
    ShadowRunReachesNothing(d, native, core.machine, address, RunLive(d, original, core));
  }

  // ---- the run continues as if only the original had run ---------------------------------------------

  /** For every original, every native and every ending, including the bound fault: devices and clock are where the
      original alone left them, and so is the machine, whose zero register is hardwired; the exit is the original's,
      its guest time already charged when it returned. */
  lemma ShadowIsTransparent<C, D, W>(d: Devices<W>, original: Call<C>, native: Call<D>, address: Word,
                                     core: CoreState<W>, deadBytes: Word)
    requires BothEnd(d, original, native, address, core)
    ensures var alone := RunAlone(d, original, core);
            var shadowed := Shadow(d, original, native, address, core, deadBytes);
            && shadowed.core.world == alone.world
            && (alone.machine.gpr[ZERO] == 0 ==> shadowed.core.machine == alone.machine)
            && shadowed.result == (if alone.status.result.Returned() then alone.status.result.(cycles := 0)
                                   else alone.status.result)
  {
    LiveRunIsTheRunAlone(d, original, core);
    ShadowRunReachesNothing(d, native, core.machine, address, RunLive(d, original, core));
  }

  /** A pending exit request is not part of the snapshot. It too is where the original alone left it, exactly
      unless the bound stopped a native that had a request outstanding, which nothing takes back. */
  lemma ExitRequestSurvivesIff<C, D, W>(d: Devices<W>, original: Call<C>, native: Call<D>, address: Word,
                                        core: CoreState<W>, deadBytes: Word)
    requires BothEnd(d, original, native, address, core)
    requires RunAlone(d, original, core).status.result.Returned() ==> RunAlone(d, original, core).request.None?
    ensures var alone, live := RunAlone(d, original, core), RunLive(d, original, core);
            var shadowed := Shadow(d, original, native, address, core, deadBytes);
            live.journal.Some? &&
            (shadowed.core.request == alone.request <==>
             !(shadowed.ending == NativeOverran &&
               RunShadow(d, native, core.machine, address, live).request.Some?))
  {
    LiveRunIsTheRunAlone(d, original, core);
  }

  // ---- an override that computes the same thing matches ----------------------------------------------

  lemma ContractIsReflexive(o: Observation, window: Run)
    ensures ContractHolds(o, o, window)
  {
  }

  /** Shadowing a native that performs the original's own computation is a Match, whenever the original returns to
      its caller with nothing unreplayable, nothing refused and no exit request left. */
  lemma SameComputationMatches<C, W>(d: Devices<W>, call: Call<C>, address: Word, core: CoreState<W>, deadBytes: Word)
    requires BothEnd(d, call, call, address, core)
    requires core.machine.gpr[ZERO] == 0 && core.machine.pc == address
    requires core.request.None? && RunAlone(d, call, core).request.None?
    requires RunAlone(d, call, core).status.result == ExecutionResult(GuestReturn, core.machine.gpr[RA],
                                                                      RunAlone(d, call, core).status.result.cycles)
    requires var live := RunLive(d, call, core);
             live.journal.Some? ==> live.journal.value.unreplayable.None? && live.journal.value.violation.None?
    ensures Shadow(d, call, call, address, core, deadBytes).ending == Judged(true)
  {
    LiveRunIsTheRunAlone(d, call, core);
    var live := RunLive(d, call, core);
    assert NativeEntry(core.machine, address) == core.machine;
    ReplayOfTheSameProgramIsExact(d, call.program, call.start, core.machine, None, core.world, live.world, call.steps);
    ContractIsReflexive(Observation(live.machine, core.machine.gpr[RA], live.journal.value.effects),
                        DeadStackWindow(core.machine.gpr[SP], deadBytes));
  }

  // ---- a match means the native could stand in for the original --------------------------------------

  /** The devices after a log's reads and writes. */
  function WorldAfter<W>(d: Devices<W>, world: W, log: seq<SideEffect>): W {
    if |log| == 0 then world
    else
      var before, last := WorldAfter(d, world, log[..|log| - 1]), log[|log| - 1];
      match last.kind
      case DeviceRead => d.read(before, last.address, last.width).1
      case DeviceWrite => d.write(before, last.address, last.width, last.value)
      case _ => before
  }

  /** Every read in the log has the value the devices give at its position. */
  ghost predicate Answered<W>(d: Devices<W>, world: W, log: seq<SideEffect>) {
    forall i :: 0 <= i < |log| && log[i].kind == DeviceRead ==>
      d.read(WorldAfter(d, world, log[..i]), log[i].address, log[i].width).0 == log[i].value
  }

  /** Devices whose state does not move with guest time alone. */
  ghost predicate TimeInvisible<W(!new)>(d: Devices<W>) {
    forall world, ticks: nat :: d.tick(world, ticks) == world
  }

  lemma AnsweredExtends<W>(d: Devices<W>, world: W, log: seq<SideEffect>, effect: SideEffect)
    requires Answered(d, world, log)
    requires effect.kind == DeviceRead ==>
               d.read(WorldAfter(d, world, log), effect.address, effect.width).0 == effect.value
    ensures Answered(d, world, log + [effect])
    ensures WorldAfter(d, world, log + [effect]) ==
            match effect.kind
            case DeviceRead => d.read(WorldAfter(d, world, log), effect.address, effect.width).1
            case DeviceWrite => d.write(WorldAfter(d, world, log), effect.address, effect.width, effect.value)
            case _ => WorldAfter(d, world, log)
  {
    var grown := log + [effect];
    assert grown[..|log|] == log;
    forall i | 0 <= i < |grown| && grown[i].kind == DeviceRead
      ensures d.read(WorldAfter(d, world, grown[..i]), grown[i].address, grown[i].width).0 == grown[i].value
    {
      if i < |log| {
        assert grown[..i] == log[..i];
      }
    }
  }

  /** A clean recording's log accounts for the whole device state. */
  ghost predicate Accounted<C, W>(d: Devices<W>, world: W, s: Exec<C, W>) {
    && s.journal.Some? && s.journal.value.mode == Record
    && Answered(d, world, s.journal.value.effects)
    && s.world == WorldAfter(d, world, s.journal.value.effects)
  }

  /** Nothing in the journal speaks against a replay so far. */
  ghost predicate Clean<C, W>(s: Exec<C, W>) {
    s.journal.Some? && s.journal.value.unreplayable.None? && s.journal.value.violation.None?
  }

  lemma RecordedReadAccounts<C, W>(d: Devices<W>, world: W, s: Exec<C, W>, address: Word, width: Word,
                                   resume: Word -> C)
    requires Accounted(d, world, s) && Clean(ReadStep(d, s, address, width, resume))
    ensures Accounted(d, world, ReadStep(d, s, address, width, resume))
  {
    var before := s.journal.value.effects;
    AnsweredExtends(d, world, before, SideEffect(DeviceRead, address, width, d.read(s.world, address, width).0));
  }

  lemma RecordedWriteAccounts<C, W>(d: Devices<W>, world: W, s: Exec<C, W>, address: Word, width: Word, value: Word,
                                    next: C)
    requires Accounted(d, world, s) && Clean(WriteStep(d, s, address, width, value, next))
    ensures Accounted(d, world, WriteStep(d, s, address, width, value, next))
  {
    AnsweredExtends(d, world, s.journal.value.effects, SideEffect(DeviceWrite, address, width, value));
  }

  lemma RecordedCrossingAccounts<C, W>(d: Devices<W>, world: W, s: Exec<C, W>, effect: SideEffect,
                                       admission: Response<bool>, admitted: C, withheld: C)
    requires Accounted(d, world, s) && Clean(ServiceStep(d, s, effect, admission, admitted, withheld))
    requires effect.width == 0 && effect.kind != DeviceRead && effect.kind != DeviceWrite
    requires admission == AdmittedService(s.journal.value, effect.kind, effect.address, effect.value)
    ensures Accounted(d, world, ServiceStep(d, s, effect, admission, admitted, withheld))
  {
    AnsweredExtends(d, world, s.journal.value.effects, effect);
  }

  lemma RecordStepAccounts<C, W(!new)>(d: Devices<W>, p: Program<C>, world: W, s: Exec<C, W>)
    requires TimeInvisible(d) && Accounted(d, world, s) && Clean(Next(d, p, s))
    ensures Accounted(d, world, Next(d, p, s))
  {
    if s.status.Running? {
      match p(s.control, s.machine)
      case ReadDevice(address, width, resume) => RecordedReadAccounts(d, world, s, address, width, resume);
      case WriteDevice(address, width, value, next) => RecordedWriteAccounts(d, world, s, address, width, value, next);
      case CallService(kind, address, selector, admitted, withheld) =>
        RecordedCrossingAccounts(d, world, s, SideEffect(kind, address, 0, selector),
                                 AdmittedService(s.journal.value, kind, address, selector), admitted, withheld);
      case _ =>
    }
  }

  lemma {:induction false} RecordAccounts<C, W(!new)>(d: Devices<W>, p: Program<C>, world: W, s: Exec<C, W>, n: nat)
    requires TimeInvisible(d) && Accounted(d, world, s)
    requires var j := Steps(d, p, s, n).journal;
             j.Some? ==> j.value.unreplayable.None? && j.value.violation.None?
    ensures Accounted(d, world, Steps(d, p, s, n))
  {
    JournalGrows(d, p, s, n, n);
    if n > 0 {
      JournalGrows(d, p, s, n - 1, n);
      RecordAccounts(d, p, world, s, n - 1);
      RecordStepAccounts(d, p, world, Steps(d, p, s, n - 1));
    }
  }

  /** A live run of the native keeps step with its replay: the devices answer what the log served. */
  ghost predicate KeepsStep<C, W>(d: Devices<W>, world: W, live: Exec<C, W>, replay: Exec<C, W>) {
    && Accounted(d, world, live) && replay.journal.Some? && replay.journal.value.mode == Replay
    && live.control == replay.control && live.machine == replay.machine
    && live.request == replay.request && live.status == replay.status
    && live.journal.value.effects == replay.journal.value.effects
    && live.journal.value.unreplayable.None? && live.journal.value.violation.None?
  }

  /** The replay so far is clean: its log is a prefix of the recording and nothing was refused or withheld. */
  ghost predicate CleanReplay<C, W>(s: Exec<C, W>, log: seq<SideEffect>) {
    && s.journal.Some? && s.journal.value.mode == Replay && s.journal.value.recorded == log
    && s.journal.value.effects <= log
    && s.journal.value.unreplayable.None? && s.journal.value.violation.None? && s.journal.value.withheldPendingWork == 0
  }

  /** One more effect that the recording holds at this position: the devices answer it and it is accounted for. */
  lemma NextEffectIsAnswered<C, W>(d: Devices<W>, world: W, replay: Exec<C, W>, log: seq<SideEffect>,
                                   effect: SideEffect)
    requires Answered(d, world, log) && replay.journal.Some? && replay.journal.value.effects + [effect] <= log
    requires Answered(d, world, replay.journal.value.effects)
    ensures effect.kind == DeviceRead ==>
              d.read(WorldAfter(d, world, replay.journal.value.effects), effect.address, effect.width).0 == effect.value
    ensures Answered(d, world, replay.journal.value.effects + [effect])
  {
    var before := replay.journal.value.effects;
    assert log[|before|] == effect && log[..|before|] == before;
    AnsweredExtends(d, world, before, effect);
  }

  lemma LiveReadKeepsUp<C, W>(d: Devices<W>, world: W, live: Exec<C, W>, replay: Exec<C, W>, log: seq<SideEffect>,
                              address: Word, width: Word, resume: Word -> C)
    requires Answered(d, world, log) && KeepsStep(d, world, live, replay) && live.status.Running?
    requires CleanReplay(replay, log) && CleanReplay(ReadStep(d, replay, address, width, resume), log)
    ensures KeepsStep(d, world, ReadStep(d, live, address, width, resume), ReadStep(d, replay, address, width, resume))
  {
    var effect := SideEffect(DeviceRead, address, width, ServedValue(replay.journal.value, address, width));
    assert |replay.journal.value.effects| < BOUND;
    NextEffectIsAnswered(d, world, replay, log, effect);
    AnsweredExtends(d, world, live.journal.value.effects, effect);
  }

  lemma LiveWriteKeepsUp<C, W>(d: Devices<W>, world: W, live: Exec<C, W>, replay: Exec<C, W>, log: seq<SideEffect>,
                               address: Word, width: Word, value: Word, next: C)
    requires Answered(d, world, log) && KeepsStep(d, world, live, replay) && live.status.Running?
    requires CleanReplay(replay, log) && CleanReplay(WriteStep(d, replay, address, width, value, next), log)
    ensures KeepsStep(d, world, WriteStep(d, live, address, width, value, next),
                      WriteStep(d, replay, address, width, value, next))
  {
    var effect := SideEffect(DeviceWrite, address, width, value);
    assert |replay.journal.value.effects| < BOUND;
    AnsweredExtends(d, world, live.journal.value.effects, effect);
  }

  lemma LiveNestedKeepsUp<C, W>(d: Devices<W>, p: Program<C>, world: W, live: Exec<C, W>, replay: Exec<C, W>,
                                log: seq<SideEffect>)
    requires KeepsStep(d, world, live, replay) && live.status.Running?
    requires p(live.control, live.machine).CallService?
    requires CleanReplay(replay, log) && CleanReplay(Next(d, p, replay), log)
    ensures KeepsStep(d, world, Next(d, p, live), Next(d, p, replay))
  {
    var a := p(live.control, live.machine);
    var effect := SideEffect(a.kind, a.address, 0, a.selector);
    assert a.kind == NestedOverride && |replay.journal.value.effects| < BOUND;
    assert Next(d, p, replay).journal.value.effects == replay.journal.value.effects + [effect];
    assert MatchesRecordedAt(replay.journal.value, |replay.journal.value.effects|, effect);
    AnsweredExtends(d, world, live.journal.value.effects, effect);
  }

  lemma LiveStepKeepsUp<C, W(!new)>(d: Devices<W>, p: Program<C>, world: W, live: Exec<C, W>, replay: Exec<C, W>,
                                    log: seq<SideEffect>)
    requires TimeInvisible(d) && Answered(d, world, log)
    requires KeepsStep(d, world, live, replay) && CleanReplay(replay, log) && CleanReplay(Next(d, p, replay), log)
    ensures KeepsStep(d, world, Next(d, p, live), Next(d, p, replay))
  {
    if live.status.Running? {
      match p(live.control, live.machine)
      case ReadDevice(address, width, resume) =>
        LiveReadKeepsUp(d, world, live, replay, log, address, width, resume);
      case WriteDevice(address, width, value, next) =>
        LiveWriteKeepsUp(d, world, live, replay, log, address, width, value, next);
      case CallService(_, _, _, _, _) => LiveNestedKeepsUp(d, p, world, live, replay, log);
      case _ =>
    }
  }

  lemma ReplayStepStaysDirty<C, W>(d: Devices<W>, p: Program<C>, s: Exec<C, W>, log: seq<SideEffect>)
    requires s.journal.Some? && s.journal.value.mode == Replay && s.journal.value.recorded == log
    requires CleanReplay(Next(d, p, s), log)
    ensures CleanReplay(s, log)
  {
    JournalStepGrows(d, p, s);
    assert s.journal.value.withheldPendingWork <= Next(d, p, s).journal.value.withheldPendingWork;
  }

  lemma {:induction false} LiveKeepsUp<C, W(!new)>(d: Devices<W>, p: Program<C>, world: W, live: Exec<C, W>,
                                                   replay: Exec<C, W>, log: seq<SideEffect>, n: nat)
    requires TimeInvisible(d) && Answered(d, world, log)
    requires KeepsStep(d, world, live, replay) && replay.journal.value.recorded == log
    requires CleanReplay(Steps(d, p, replay, n), log)
    ensures KeepsStep(d, world, Steps(d, p, live, n), Steps(d, p, replay, n))
  {
    if n > 0 {
      ReplayReachesNothing(d, p, replay, n - 1);
      ReplayStepStaysDirty(d, p, Steps(d, p, replay, n - 1), log);
      LiveKeepsUp(d, p, world, live, replay, log, n - 1);
      LiveStepKeepsUp(d, p, world, Steps(d, p, live, n - 1), Steps(d, p, replay, n - 1), log);
    }
  }

  /** A Match hides no truncated native log when the original logged fewer effects than the bound: a truncated log
      stands at the bound, and matching logs are equal. */
  lemma MatchOfAShortOriginalIsUntruncated<C, D, W>(d: Devices<W>, original: Call<C>, native: Call<D>, address: Word,
                                                    core: CoreState<W>, deadBytes: Word)
    requires BothEnd(d, original, native, address, core)
    requires Shadow(d, original, native, address, core, deadBytes).ending == Judged(true)
    ensures var live := RunLive(d, original, core);
            live.journal.Some? &&
            var j := RunShadow(d, native, core.machine, address, live).journal;
            j.Some? && (j.value.violation.None? || |live.journal.value.effects| == BOUND)
  {
    LiveRunIsTheRunAlone(d, original, core);
    var live := RunLive(d, original, core);
    LogStaysWithinBound(d, native.program,
                        Begin(native.start, NativeEntry(core.machine, address), live.request, live.world,
                              Some(NewJournal(Replay, live.journal.value.effects))),
                        native.steps);
  }

  /** What a Match certifies. When the original logged fewer effects than the bound, or the replay log is known not
      to be truncated, and no pending work was withheld, on devices that guest time alone does not move, the native
      run alone from the same entry ends in the very machine that was judged against the original's and leaves the
      devices in the very state the original left them. */
  lemma MatchedNativeCouldStandIn<C, D, W(!new)>(d: Devices<W>, original: Call<C>, native: Call<D>, address: Word,
                                                 core: CoreState<W>, deadBytes: Word)
    requires BothEnd(d, original, native, address, core) && TimeInvisible(d) && core.request.None?
    requires RunAlone(d, original, core).request.None?
    requires Shadow(d, original, native, address, core, deadBytes).ending == Judged(true)
    requires var live := RunLive(d, original, core);
             live.journal.Some? ==>
               var j := RunShadow(d, native, core.machine, address, live).journal;
               j.Some? ==>
                 && (|live.journal.value.effects| < BOUND || j.value.violation.None?)
                 && j.value.withheldPendingWork == 0
    ensures var alone := RunAlone(d, original, core);
            var standIn := RunAlone(d, native, core.(machine := NativeEntry(core.machine, address)));
            && standIn.status.Exited?
            && standIn.world == alone.world
            && MemoryAgrees(alone.machine, standIn.machine, DeadStackWindow(core.machine.gpr[SP], deadBytes))
            && RegistersAgree(Observation(alone.machine, alone.status.result.guestPc, []),
                              Observation(standIn.machine,
                                          HostLeafResult(standIn.request, core.machine.gpr[RA]).guestPc, []))
  {
    LiveRunIsTheRunAlone(d, original, core);
    var live := RunLive(d, original, core);
    var log := live.journal.value.effects;
    ShadowRunReachesNothing(d, native, core.machine, address, live);
    MatchOfAShortOriginalIsUntruncated(d, original, native, address, core, deadBytes);
    var begun := Begin(original.start, core.machine, core.request, core.world, Some(NewJournal(Record, [])));
    RecordAccounts(d, original.program, core.world, begun, original.steps);
    var entry := NativeEntry(core.machine, address);
    var recording := Begin(native.start, entry, None, core.world, Some(NewJournal(Record, [])));
    var replay := Begin(native.start, entry, live.request, live.world, Some(NewJournal(Replay, log)));
    LiveKeepsUp(d, native.program, core.world, recording, replay, log, native.steps);
    RecordingIsInvisible(d, native.program, recording, native.steps);
  }
}
