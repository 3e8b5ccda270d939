/** Guest and native bodies as arbitrary interaction programs over the Core's funnel, run with no journal, recorded
    or replayed. Every theorem here holds for every program, every device and every number of steps. */
module CallPrograms {
  import opened GuestTypes
  import opened MachineSnapshots
  import opened SideEffectJournals

  /** The outside of the machine: devices, guest clock and the host services that cannot be replayed. */
  datatype Devices<!W> = Devices(
    read: (W, Word, Word) -> (Word, W),
    write: (W, Word, Word, Word) -> W,
    serve: (W, Machine, SideEffect) -> (Machine, W),
    tick: (W, nat) -> W)

  /** What a body does next. A nested override runs as part of the program that reached it: `admitted` continues
      into its body, `withheld` skips it. */
  datatype Action<!C> =
    | Exit(result: ExecutionResult)
    | Compute(next: C, machine: Machine)
    | ReadDevice(address: Word, width: Word, resume: Word -> C)
    | WriteDevice(address: Word, width: Word, value: Word, next: C)
    | CallService(kind: EffectKind, address: Word, selector: Word, admitted: C, withheld: C)
    | CallSyscall(code: Word, pc: Word, admitted: C, withheld: C)
    | ServicePending(next: C)
    | PassTime(ticks: nat, next: C)
    | EnterTranslated(next: C)
    | LeaveTranslated(next: C)
    | RequestExit(request: ExecutionResult, next: C)
    | ConsumeExit(taken: Option<ExecutionResult> -> C)

  type Program<!C> = (C, Machine) -> Action<C>

  datatype Status = Running | Exited(result: ExecutionResult) | Stopped

  /** A body in flight: `journal` is the Core's active journal, `request` its pending exit request. */
  datatype Exec<!C, W> = Exec(
    control: C,
    machine: Machine,
    request: Option<ExecutionResult>,
    world: W,
    journal: Option<Journal>,
    status: Status)

  // ---- the funnel ------------------------------------------------------------------------------------

  function ReadStep<C, W>(d: Devices<W>, s: Exec<C, W>, address: Word, width: Word, resume: Word -> C): Exec<C, W> {
    if s.journal.None? then
      var (value, world) := d.read(s.world, address, width);
      s.(control := resume(value), world := world)
    else
      var served := ReplayedRead(s.journal.value, address, width);
      if served.thrown then s.(journal := Some(served.journal), status := Stopped)
      else if served.value.Some? then s.(control := resume(served.value.value), journal := Some(served.journal))
      else
        var (value, world) := d.read(s.world, address, width);
        var a := Appended(s.journal.value, SideEffect(DeviceRead, address, width, value));
        s.(control := resume(value), world := world, journal := Some(a.journal))
  }

  function WriteStep<C, W>(d: Devices<W>, s: Exec<C, W>, address: Word, width: Word, value: Word, next: C): Exec<C, W> {
    if s.journal.None? then s.(control := next, world := d.write(s.world, address, width, value))
    else
      var a := AdmittedWrite(s.journal.value, address, width, value);
      if a.thrown then s.(journal := Some(a.journal), status := Stopped)
      else if a.value then
        s.(control := next, world := d.write(s.world, address, width, value), journal := Some(a.journal))
      else s.(control := next, journal := Some(a.journal))
  }

  /** A host service: a nested override only continues the program, any other is performed by the host. */
  function Perform<C, W>(d: Devices<W>, s: Exec<C, W>, effect: SideEffect, next: C): Exec<C, W> {
    if effect.kind == NestedOverride then s.(control := next)
    else
      var (machine, world) := d.serve(s.world, s.machine, effect);
      s.(control := next, machine := machine, world := world)
  }

  function ServiceStep<C, W>(d: Devices<W>, s: Exec<C, W>, effect: SideEffect, admission: Response<bool>, admitted: C,
                             withheld: C): Exec<C, W>
    requires s.journal.Some?
  {
    var after := s.(journal := Some(admission.journal));
    if admission.thrown then after.(status := Stopped)
    else if admission.value then Perform(d, after, effect, admitted)
    else after.(control := withheld)
  }

  function Next<C, W>(d: Devices<W>, p: Program<C>, s: Exec<C, W>): Exec<C, W> {
    if !s.status.Running? then s
    else
      match p(s.control, s.machine)
      case Exit(result) => s.(status := Exited(result))
      case Compute(next, machine) => s.(control := next, machine := machine)
      case ReadDevice(address, width, resume) => ReadStep(d, s, address, width, resume)
      case WriteDevice(address, width, value, next) => WriteStep(d, s, address, width, value, next)
      case CallService(kind, address, selector, admitted, withheld) =>
        var effect := SideEffect(kind, address, 0, selector);
        if s.journal.None? then Perform(d, s, effect, admitted)
        else ServiceStep(d, s, effect, AdmittedService(s.journal.value, kind, address, selector), admitted, withheld)
      case CallSyscall(code, pc, admitted, withheld) =>
        var effect := SideEffect(Syscall, pc, 0, code);
        if s.journal.None? then Perform(d, s, effect, admitted)
        else ServiceStep(d, s, effect, AdmittedSyscall(s.journal.value, code, pc), admitted, withheld)
      case ServicePending(next) =>
        var effect := SideEffect(PendingWork, 0, 0, 0);
        if s.journal.None? then Perform(d, s, effect, next)
        else ServiceStep(d, s, effect, AdmittedPendingWork(s.journal.value), next, next)
      case PassTime(ticks, next) =>
        if s.journal.Some? && WithholdsGuestTime(s.journal.value) then s.(control := next)
        else s.(control := next, world := d.tick(s.world, ticks))
      case EnterTranslated(next) => Translated(s, next, 1)
      case LeaveTranslated(next) => Translated(s, next, -1)
      case RequestExit(request, next) =>
        s.(control := next, request := if s.request.None? then Some(request) else s.request)
      case ConsumeExit(taken) => s.(control := taken(s.request), request := None)
  }

  /** Entering or leaving translated code, which only an active journal keeps count of. */
  function Translated<C, W>(s: Exec<C, W>, next: C, change: int): Exec<C, W> {
    if s.journal.None? then s.(control := next)
    else
      var open := s.journal.value.translated + change;
      s.(control := next, journal := Some(s.journal.value.(translated := if open < 0 then 0 else open)))
  }

  function Steps<C, W>(d: Devices<W>, p: Program<C>, s: Exec<C, W>, n: nat): Exec<C, W> {
    if n == 0 then s else Next(d, p, Steps(d, p, s, n - 1))
  }

  /** A journal counts the translated frames that are open, and raises no bound fault through one. */
  lemma TranslatedFramesAreCounted<C, W>(d: Devices<W>, p: Program<C>, s: Exec<C, W>)
    requires s.journal.Some? && s.status.Running?
    ensures var a, after := p(s.control, s.machine), Next(d, p, s);
            && (a.EnterTranslated? ==>
                  && after == s.(control := a.next,
                                 journal := Some(s.journal.value.(translated := s.journal.value.translated + 1)))
                  && forall effect :: !RefusedAtBound(after.journal.value, effect).thrown)
            && (a.LeaveTranslated? && s.journal.value.translated > 0 ==>
                  after == s.(control := a.next,
                              journal := Some(s.journal.value.(translated := s.journal.value.translated - 1))))
  {
  }

  /** The first exit request stands until it is consumed. */
  lemma FirstRequestStands<C, W>(d: Devices<W>, p: Program<C>, s: Exec<C, W>)
    requires s.status.Running?
    ensures var a, after := p(s.control, s.machine), Next(d, p, s);
            && (a.RequestExit? ==>
                  after == s.(control := a.next,
                              request := Some(if s.request.Some? then s.request.value else a.request)))
            && (a.ConsumeExit? ==> after == s.(control := a.taken(s.request), request := None))
            && (!a.RequestExit? && !a.ConsumeExit? ==> after.request == s.request)
  {
  }

  /** With no journal each host crossing is performed, as what it is. */
  lemma CrossingsArePerformed<C, W>(d: Devices<W>, p: Program<C>, s: Exec<C, W>)
    requires s.status.Running? && s.journal.None?
    ensures var a, after := p(s.control, s.machine), Next(d, p, s);
            && (a.CallService? && a.kind == NestedOverride ==> after == s.(control := a.admitted))
            && (a.CallService? && a.kind != NestedOverride ==>
                  (after.machine, after.world) ==
                  d.serve(s.world, s.machine, SideEffect(a.kind, a.address, 0, a.selector)))
            && (a.CallSyscall? ==> (after.machine, after.world) ==
                                   d.serve(s.world, s.machine, SideEffect(Syscall, a.pc, 0, a.code)))
            && (a.ServicePending? ==> (after.machine, after.world) ==
                                      d.serve(s.world, s.machine, SideEffect(PendingWork, 0, 0, 0)))
  {
  }

  // ---- recording is invisible ------------------------------------------------------------------------

  lemma RecordingStepIsInvisible<C, W>(d: Devices<W>, p: Program<C>, s: Exec<C, W>)
    requires s.journal.Some? && s.journal.value.mode == Record
    ensures var after := Next(d, p, s);
            && after.journal.Some? && after.journal.value.mode == Record
            && after.(journal := None) == Next(d, p, s.(journal := None))
  {
  }

  /** A recorded run does to the machine, the devices and the clock what the same run does with no journal, at
      every step, and is never stopped by the bound. */
  lemma {:induction false} RecordingIsInvisible<C, W>(d: Devices<W>, p: Program<C>, s: Exec<C, W>, n: nat)
    requires s.journal.Some? && s.journal.value.mode == Record
    ensures var after := Steps(d, p, s, n);
            && after.journal.Some? && after.journal.value.mode == Record
            && after.(journal := None) == Steps(d, p, s.(journal := None), n)
            && (after.status == Stopped ==> s.status == Stopped)
  {
    if n > 0 {
      RecordingIsInvisible(d, p, s, n - 1);
      RecordingStepIsInvisible(d, p, Steps(d, p, s, n - 1));
    }
  }

  /** A clock among the devices, which time alone moves. */
  ghost predicate IsClock<W(!new)>(d: Devices<W>, clock: W -> nat) {
    && (forall w, address, width :: clock(d.read(w, address, width).1) == clock(w))
    && (forall w, address, width, value :: clock(d.write(w, address, width, value)) == clock(w))
    && (forall w, machine, effect :: clock(d.serve(w, machine, effect).1) == clock(w))
    && (forall w, ticks: nat :: clock(d.tick(w, ticks)) == clock(w) + ticks)
  }

  /** The guest time a run asks to pass. */
  function TimeOf<C, W>(d: Devices<W>, p: Program<C>, s: Exec<C, W>, n: nat): nat {
    if n == 0 then 0
    else
      var last := Steps(d, p, s, n - 1);
      TimeOf(d, p, s, n - 1) +
      if last.status.Running? && p(last.control, last.machine).PassTime? then p(last.control, last.machine).ticks else 0
  }

  lemma {:induction false} StepIsCharged<C, W(!new)>(d: Devices<W>, p: Program<C>, s: Exec<C, W>, clock: W -> nat)
    requires IsClock(d, clock) && s.journal.None?
    ensures Next(d, p, s).journal.None?
    ensures clock(Next(d, p, s).world) == clock(s.world) +
            if s.status.Running? && p(s.control, s.machine).PassTime? then p(s.control, s.machine).ticks else 0
  {
  }

  /** Run for real, a body is charged exactly the guest time it passes. */
  lemma {:induction false} TimeIsCharged<C, W(!new)>(d: Devices<W>, p: Program<C>, s: Exec<C, W>, clock: W -> nat,
                                                     n: nat)
    requires IsClock(d, clock) && s.journal.None?
    ensures Steps(d, p, s, n).journal.None?
    ensures clock(Steps(d, p, s, n).world) == clock(s.world) + TimeOf(d, p, s, n)
  {
    if n > 0 {
      TimeIsCharged(d, p, s, clock, n - 1);
      StepIsCharged(d, p, Steps(d, p, s, n - 1), clock);
    }
  }

  // ---- replaying reaches nothing ---------------------------------------------------------------------

  /** A replayed run never reaches a device or the clock, at any step, whatever it does and however it diverges. */
  lemma {:induction false} ReplayReachesNothing<C, W>(d: Devices<W>, p: Program<C>, s: Exec<C, W>, n: nat)
    requires s.journal.Some? && s.journal.value.mode == Replay
    ensures var after := Steps(d, p, s, n);
            && after.world == s.world
            && after.journal.Some? && after.journal.value.mode == Replay
            && after.journal.value.recorded == s.journal.value.recorded
  {
    if n > 0 {
      ReplayReachesNothing(d, p, s, n - 1);
    }
  }

  // ---- discarding is running quietly -----------------------------------------------------------------

  /** Devices that answer zero and take nothing; the host services stay. */
  function Blank<W>(d: Devices<W>): Devices<W> {
    Devices((w: W, address: Word, width: Word) => (0, w), (w: W, address: Word, width: Word, value: Word) => w, d.serve,
            (w: W, ticks: nat) => w)
  }

  /** The program with its syscalls and pending work left out. */
  function Quiet<C>(p: Program<C>): Program<C> {
    (c: C, m: Machine) =>
      match p(c, m)
      case CallSyscall(_, _, _, withheld) => Compute(withheld, m)
      case ServicePending(next) => Compute(next, m)
      case action => action
  }

  /** Nothing but a syscall marks a discarded run. */
  ghost predicate Discarding(j: Journal) {
    && j.mode == Discard
    && (j.unreplayable.Some? ==> j.unreplayable.value.Performed? && j.unreplayable.value.effect.kind == Syscall)
  }

  lemma {:induction false} DiscardedStepIsQuiet<C, W>(d: Devices<W>, p: Program<C>, s: Exec<C, W>)
    requires s.journal.Some? && Discarding(s.journal.value)
    ensures var after := Next(d, p, s);
            && after.journal.Some? && Discarding(after.journal.value)
            && after.(journal := None) == Next(Blank(d), Quiet(p), s.(journal := None))
  {
  }

  /** A discarded run is the run with no journal on blank devices, its syscalls and pending work left out, at every step
      and past the bound too. */
  lemma {:induction false} DiscardedRunIsTheQuietRun<C, W>(d: Devices<W>, p: Program<C>, s: Exec<C, W>, n: nat)
    requires s.journal.Some? && Discarding(s.journal.value)
    ensures var after := Steps(d, p, s, n);
            && after.journal.Some? && Discarding(after.journal.value)
            && after.(journal := None) == Steps(Blank(d), Quiet(p), s.(journal := None), n)
  {
    if n > 0 {
      DiscardedRunIsTheQuietRun(d, p, s, n - 1);
      DiscardedStepIsQuiet(d, p, Steps(d, p, s, n - 1));
    }
  }

  // ---- replaying the same computation is exact -------------------------------------------------------

  /** A later state of a journal: the log only grows and no mark is taken back. */
  ghost predicate Extends(after: Journal, before: Journal) {
    && before.effects <= after.effects
    && (after.unreplayable.None? ==> before.unreplayable.None?)
    && (after.violation.None? ==> before.violation.None?)
  }

  lemma AppendedExtends(j: Journal, effect: SideEffect)
    ensures Extends(Appended(j, effect).journal, j)
  {
  }

  lemma JournalStepGrows<C, W>(d: Devices<W>, p: Program<C>, s: Exec<C, W>)
    requires s.journal.Some?
    ensures Next(d, p, s).journal.Some?
    ensures Extends(Next(d, p, s).journal.value, s.journal.value)
  {
    var j := s.journal.value;
    if s.status.Running? {
      match p(s.control, s.machine)
      case ReadDevice(address, width, _) =>
        AppendedExtends(j, SideEffect(DeviceRead, address, width, ServedValue(j, address, width)));
        AppendedExtends(j, SideEffect(DeviceRead, address, width, 0));
        AppendedExtends(j, SideEffect(DeviceRead, address, width, d.read(s.world, address, width).0));
      case WriteDevice(address, width, value, _) =>
        AppendedExtends(j, SideEffect(DeviceWrite, address, width, value));
      case CallService(kind, address, selector, _, _) => AppendedExtends(j, SideEffect(kind, address, 0, selector));
      case CallSyscall(code, pc, _, _) => AppendedExtends(j, SideEffect(Syscall, pc, 0, code));
      case ServicePending(_) => AppendedExtends(j, SideEffect(PendingWork, 0, 0, 0));
      case _ =>
    }
  }

  lemma {:induction false} JournalGrows<C, W>(d: Devices<W>, p: Program<C>, s: Exec<C, W>, n: nat, m: nat)
    requires s.journal.Some? && n <= m
    ensures Steps(d, p, s, n).journal.Some? && Steps(d, p, s, m).journal.Some?
    ensures Extends(Steps(d, p, s, m).journal.value, Steps(d, p, s, n).journal.value)
    decreases m
  {
    if n < m {
      JournalGrows(d, p, s, n, m - 1);
      JournalStepGrows(d, p, Steps(d, p, s, m - 1));
    } else if n > 0 {
      JournalGrows(d, p, s, n - 1, n - 1);
      JournalStepGrows(d, p, Steps(d, p, s, n - 1));
    }
  }

  /** The log never passes the bound, and an effect was refused only once it stood there. */
  ghost predicate WithinBound(j: Journal) {
    |j.effects| <= BOUND && (j.violation.Some? ==> |j.effects| == BOUND)
  }

  lemma {:induction false} LogStaysWithinBound<C, W>(d: Devices<W>, p: Program<C>, s: Exec<C, W>, n: nat)
    requires s.journal.Some? && WithinBound(s.journal.value)
    ensures Steps(d, p, s, n).journal.Some? && WithinBound(Steps(d, p, s, n).journal.value)
  {
    if n > 0 {
      LogStaysWithinBound(d, p, s, n - 1);
      StepStaysWithinBound(d, p, Steps(d, p, s, n - 1));
    }
  }

  lemma StepStaysWithinBound<C, W>(d: Devices<W>, p: Program<C>, s: Exec<C, W>)
    requires s.journal.Some? && WithinBound(s.journal.value)
    ensures Next(d, p, s).journal.Some? && WithinBound(Next(d, p, s).journal.value)
  {
  }

  /** What a log the shadow path can serve is made of: device accesses and nested overrides. */
  predicate Replayable(effect: SideEffect) {
    effect.kind == DeviceRead || effect.kind == DeviceWrite || (effect.kind == NestedOverride && effect.width == 0)
  }

  ghost predicate CleanLog(j: Journal) {
    j.mode == Record && (j.unreplayable.None? ==> forall i :: 0 <= i < |j.effects| ==> Replayable(j.effects[i]))
  }

  lemma StepKeepsCleanLog<C, W>(d: Devices<W>, p: Program<C>, s: Exec<C, W>)
    requires s.journal.Some? && CleanLog(s.journal.value)
    ensures Next(d, p, s).journal.Some? && CleanLog(Next(d, p, s).journal.value)
  {
  }

  /** A recording with nothing unreplayable logged nothing else. */
  lemma {:induction false} RecordedLogIsReplayable<C, W>(d: Devices<W>, p: Program<C>, s: Exec<C, W>, n: nat)
    requires s.journal.Some? && CleanLog(s.journal.value)
    ensures Steps(d, p, s, n).journal.Some? && CleanLog(Steps(d, p, s, n).journal.value)
  {
    if n > 0 {
      RecordedLogIsReplayable(d, p, s, n - 1);
      StepKeepsCleanLog(d, p, Steps(d, p, s, n - 1));
    }
  }

  /** The replay is where the recording was: same control, machine, exit and log so far, nothing diverged. */
  ghost predicate InStep<C, W>(recording: Exec<C, W>, replay: Exec<C, W>, log: seq<SideEffect>) {
    && recording.journal.Some? && replay.journal.Some?
    && recording.journal.value.mode == Record && replay.journal.value.mode == Replay
    && replay.control == recording.control && replay.machine == recording.machine
    && replay.request == recording.request && replay.status == recording.status
    && replay.journal.value ==
       Journal(Replay, log, recording.journal.value.effects, None, None, replay.journal.value.withheldPendingWork, None,
               recording.journal.value.translated)
  }

  /** The recording's next state is clean and its log still leads to `log`. */
  ghost predicate CleanToward<C, W>(recording: Exec<C, W>, log: seq<SideEffect>) {
    && recording.journal.Some? && recording.journal.value.unreplayable.None?
    && recording.journal.value.violation.None? && recording.journal.value.effects <= log
  }

  lemma ReplayReadIsExact<C, W>(d: Devices<W>, recording: Exec<C, W>, replay: Exec<C, W>, log: seq<SideEffect>,
                                address: Word, width: Word, resume: Word -> C)
    requires InStep(recording, replay, log) && recording.status.Running?
    requires CleanToward(ReadStep(d, recording, address, width, resume), log)
    ensures InStep(ReadStep(d, recording, address, width, resume), ReadStep(d, replay, address, width, resume), log)
  {
    var before := recording.journal.value.effects;
    var effect := SideEffect(DeviceRead, address, width, d.read(recording.world, address, width).0);
    assert |before| < BOUND;
    assert ReadStep(d, recording, address, width, resume).journal.value.effects == before + [effect];
    assert log[|before|] == effect;
  }

  lemma ReplayWriteIsExact<C, W>(d: Devices<W>, recording: Exec<C, W>, replay: Exec<C, W>, log: seq<SideEffect>,
                                 address: Word, width: Word, value: Word, next: C)
    requires InStep(recording, replay, log) && recording.status.Running?
    requires CleanToward(WriteStep(d, recording, address, width, value, next), log)
    ensures InStep(WriteStep(d, recording, address, width, value, next),
                   WriteStep(d, replay, address, width, value, next), log)
  {
    var before := recording.journal.value.effects;
    assert |before| < BOUND;
    assert log[|before|] == SideEffect(DeviceWrite, address, width, value);
  }

  lemma ReplayNestedIsExact<C, W>(d: Devices<W>, p: Program<C>, recording: Exec<C, W>, replay: Exec<C, W>,
                                  log: seq<SideEffect>)
    requires InStep(recording, replay, log) && recording.status.Running?
    requires p(recording.control, recording.machine).CallService? && CleanToward(Next(d, p, recording), log)
    ensures InStep(Next(d, p, recording), Next(d, p, replay), log)
  {
    var a := p(recording.control, recording.machine);
    var before := recording.journal.value.effects;
    assert a.kind == NestedOverride && |before| < BOUND;
    assert Next(d, p, recording).journal.value.effects == before + [SideEffect(a.kind, a.address, 0, a.selector)];
    assert log[|before|] == SideEffect(a.kind, a.address, 0, a.selector);
  }

  lemma ReplayStepIsExact<C, W>(d: Devices<W>, p: Program<C>, recording: Exec<C, W>, replay: Exec<C, W>,
                                log: seq<SideEffect>)
    requires InStep(recording, replay, log) && CleanToward(Next(d, p, recording), log)
    ensures InStep(Next(d, p, recording), Next(d, p, replay), log)
  {
    if recording.status.Running? {
      match p(recording.control, recording.machine)
      case ReadDevice(address, width, resume) => ReplayReadIsExact(d, recording, replay, log, address, width, resume);
      case WriteDevice(address, width, value, next) =>
        ReplayWriteIsExact(d, recording, replay, log, address, width, value, next);
      case CallService(_, _, _, _, _) => ReplayNestedIsExact(d, p, recording, replay, log);
      case _ =>
    }
  }

  lemma {:induction false} ReplayIsInStep<C, W>(d: Devices<W>, p: Program<C>, recording: Exec<C, W>,
                                                replay: Exec<C, W>, log: seq<SideEffect>, n: nat, m: nat)
    requires n <= m && InStep(recording, replay, log)
    requires var j := Steps(d, p, recording, m).journal;
             j.Some? && j.value.unreplayable.None? && j.value.violation.None? && j.value.effects == log
    ensures InStep(Steps(d, p, recording, n), Steps(d, p, replay, n), log)
  {
    if n > 0 {
      ReplayIsInStep(d, p, recording, replay, log, n - 1, m);
      JournalGrows(d, p, recording, n, m);
      ReplayStepIsExact(d, p, Steps(d, p, recording, n - 1), Steps(d, p, replay, n - 1), log);
    }
  }

  function Begin<C, W>(start: C, machine: Machine, request: Option<ExecutionResult>, world: W,
                       journal: Option<Journal>): Exec<C, W> {
    Exec(start, machine, request, world, journal, Running)
  }

  /** If recording a program from a machine yields a log with no unreplayable effect and no refusal, replaying it
      from the same machine against that log, with the devices in any state at all, ends in the same machine, by
      the same exit, with the same log and no divergence, and leaves the devices alone. */
  lemma ReplayOfTheSameProgramIsExact<C, W>(d: Devices<W>, p: Program<C>, start: C, machine: Machine,
                                            request: Option<ExecutionResult>, world: W, later: W, n: nat)
    requires var j := Steps(d, p, Begin(start, machine, request, world, Some(NewJournal(Record, []))), n).journal;
             j.Some? ==> j.value.unreplayable.None? && j.value.violation.None?
    ensures var live := Steps(d, p, Begin(start, machine, request, world, Some(NewJournal(Record, []))), n);
            live.journal.Some? &&
            var log := live.journal.value.effects;
            var replay := Steps(d, p, Begin(start, machine, request, later, Some(NewJournal(Replay, log))), n);
            && replay.machine == live.machine && replay.status == live.status && replay.request == live.request
            && replay.world == later
            && replay.journal.Some? && replay.journal.value.effects == log
            && FirstDivergence(replay.journal.value) == None
            && replay.journal.value.unreplayable.None? && replay.journal.value.violation.None?
  {
    var recording := Begin(start, machine, request, world, Some(NewJournal(Record, [])));
    RecordingIsInvisible(d, p, recording, n);
    var log := Steps(d, p, recording, n).journal.value.effects;
    var replay := Begin(start, machine, request, later, Some(NewJournal(Replay, log)));
    ReplayIsInStep(d, p, recording, replay, log, n, n);
    ReplayReachesNothing(d, p, replay, n);
  }
}
