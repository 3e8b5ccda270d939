/** The override differential object: which calls are sampled, the shadow itself over one Core, and the per-key
    tallies it reports. */
module OverrideDifferentials {
  import opened GuestTypes
  import opened MachineSnapshots
  import opened SideEffectJournals
  import opened CallContracts
  import opened CallPrograms
  import opened ShadowRuns
  import opened NativeDispatch

  // ---- one Core's funnel -----------------------------------------------------------------------------

  /** The Core a call runs on; `journal` is its active journal, null in the product state. */
  class Core<W> {
    const devices: Devices<W>
    const cpu: Cpu
    var world: W
    var request: Option<ExecutionResult>
    var journal: SideEffectJournal?

    constructor (devices: Devices<W>, cpu: Cpu, world: W)
      requires cpu.Valid()
      ensures Valid() && this.cpu == cpu && this.devices == devices && journal == null
      ensures Model() == CoreState(cpu.Model(), None, world)
    {
      this.devices, this.cpu, this.world := devices, cpu, world;
      request, journal := None, null;
    }

    ghost predicate Valid()
      reads this, cpu
    {
      cpu.Valid()
    }

    ghost function Model(): CoreState<W>
      requires Valid()
      reads this, cpu, cpu.ram, cpu.scratch
    {
      CoreState(cpu.Model(), request, world)
    }

    ghost function JournalModel(): Option<Journal>
      reads this, journal
    {
      if journal == null then None else Some(journal.Model())
    }

    /** A body in flight on this Core. */
    ghost function InFlight<C>(control: C, status: Status): Exec<C, W>
      requires Valid()
      reads this, cpu, cpu.ram, cpu.scratch, journal
    {
      Exec(control, cpu.Model(), request, world, JournalModel(), status)
    }

    method DeviceRead(address: Word, width: Word) returns (stopped: bool, value: Word)
      requires Valid()
      modifies this`world, journal
      ensures Valid() && journal == old(journal)
      ensures ReadStep(devices, old(InFlight<Word>(0, Running)), address, width, v => v) ==
              if stopped then InFlight<Word>(0, Stopped) else InFlight(value, Running)
    {
      if journal == null {
        var (v, w) := devices.read(world, address, width);
        world := w;
        return false, v;
      }
      var thrown, served := journal.ReplayDeviceRead(address, width);
      if thrown {
        return true, 0;
      }
      if served.Some? {
        return false, served.value;
      }
      var (v, w) := devices.read(world, address, width);
      world := w;
      var _ := journal.RecordDeviceRead(address, width, v);
      return false, v;
    }

    method DeviceWrite(address: Word, width: Word, value: Word) returns (stopped: bool)
      requires Valid()
      modifies this`world, journal
      ensures Valid() && journal == old(journal)
      ensures WriteStep(devices, old(InFlight(0, Running)), address, width, value, 0) ==
              InFlight(0, if stopped then Stopped else Running)
    {
      if journal == null {
        world := devices.write(world, address, width, value);
        return false;
      }
      var thrown, admitted := journal.AdmitDeviceWrite(address, width, value);
      if thrown {
        return true;
      }
      if admitted {
        world := devices.write(world, address, width, value);
      }
      return false;
    }

    method Perform(effect: SideEffect)
      requires Valid()
      modifies this`world, cpu, cpu.ram, cpu.scratch
      ensures Valid() && journal == old(journal)
      ensures InFlight(0, Running) == CallPrograms.Perform(devices, old(InFlight(0, Running)), effect, 0)
    {
      if effect.kind != NestedOverride {
        var machine := cpu.Capture();
        var (m, w) := devices.serve(world, machine, effect);
        cpu.Load(m);
        world := w;
      }
    }

    /** One host service, syscall or pending-work crossing; `admitted` tells the body whether it was performed. */
    method Cross(gate: Gate, effect: SideEffect) returns (stopped: bool, admitted: bool)
      requires Valid()
      modifies this`world, cpu, cpu.ram, cpu.scratch, journal
      ensures Valid() && journal == old(journal)
      ensures old(journal) == null ==> !stopped && admitted
      ensures old(journal) == null ==>
                InFlight(0, Running) == CallPrograms.Perform(devices, old(InFlight(0, Running)), effect, 0)
      ensures old(journal) != null ==>
                ServiceStep(devices, old(InFlight(0, Running)), effect,
                            Admission(old(journal.Model()), gate, effect), 0, 1) ==
                InFlight(if stopped || admitted then 0 else 1, if stopped then Stopped else Running)
    {
      if journal == null {
        Perform(effect);
        return false, true;
      }
      stopped, admitted := false, false;
      match gate {
        case SyscallGate => stopped, admitted := journal.AdmitSyscall(effect.value, effect.address);
        case PendingGate => admitted := journal.AdmitPendingWork();
        case ServiceGate => stopped, admitted := journal.AdmitHostService(effect.kind, effect.address, effect.value);
      }
      if stopped {
        admitted := false;
      } else if admitted {
        Perform(effect);
      }
    }

    /** The executor's mark on the active journal. */
    method MarkTranslated(change: int)
      requires Valid()
      modifies journal
      ensures Valid() && InFlight(0, Running) == Translated(old(InFlight(0, Running)), 0, change)
    {
      if journal != null {
        var open := journal.translated + change;
        journal.translated := if open < 0 then 0 else open;
      }
    }

    /** One step that crosses the journal: a device access or a host service. */
    method StepCrossing<C>(program: Program<C>, control: C, action: Action<C>) returns (next: C, status: Status)
      requires Valid() && action == program(control, cpu.Model())
      requires action.ReadDevice? || action.WriteDevice? || action.CallService? || action.CallSyscall? ||
               action.ServicePending?
      modifies this`world, cpu, cpu.ram, cpu.scratch, journal
      ensures Valid() && journal == old(journal)
      ensures InFlight(next, status) == Next(devices, program, old(InFlight(control, Running)))
    {
      var stopped, done := false, true;
      next := control;
      match action {
        case ReadDevice(address, width, resume) =>
          var value;
          stopped, value := DeviceRead(address, width);
          next := if stopped then control else resume(value);
        case WriteDevice(address, width, value, c) =>
          stopped := DeviceWrite(address, width, value);
          next := if stopped then control else c;
        case CallService(kind, address, selector, admitted, withheld) =>
          stopped, done := Cross(ServiceGate, SideEffect(kind, address, 0, selector));
          next := if stopped then control else if done then admitted else withheld;
        case CallSyscall(code, pc, admitted, withheld) =>
          stopped, done := Cross(SyscallGate, SideEffect(Syscall, pc, 0, code));
          next := if stopped then control else if done then admitted else withheld;
        case ServicePending(c) =>
          stopped, done := Cross(PendingGate, SideEffect(PendingWork, 0, 0, 0));
          next := c;
      }
      status := if stopped then Stopped else Running;
    }

    method StepOnce<C>(program: Program<C>, control: C) returns (next: C, status: Status)
      requires Valid()
      modifies this`world, this`request, cpu, cpu.ram, cpu.scratch, journal
      ensures Valid() && journal == old(journal)
      ensures InFlight(next, status) == Next(devices, program, old(InFlight(control, Running)))
    {
      var machine := cpu.Capture();
      var action := program(control, machine);
      next, status := control, Running;
      match action {
        case Exit(result) =>
          status := Exited(result);
        case Compute(c, m) =>
          cpu.Load(m);
          next := c;
        case PassTime(ticks, c) =>
          if journal == null || journal.mode == Record {
            world := devices.tick(world, ticks);
          }
          next := c;
        case EnterTranslated(c) =>
          MarkTranslated(1);
          next := c;
        case LeaveTranslated(c) =>
          MarkTranslated(-1);
          next := c;
        case RequestExit(r, c) =>
          if request.None? {
            request := Some(r);
          }
          next := c;
        case ConsumeExit(taken) =>
          next := taken(request);
          request := None;
        case _ =>
          next, status := StepCrossing(program, control, action);
      }
    }

    /** Runs a body for its steps, or until it ends. */
    method RunBody<C>(call: Call<C>) returns (status: Status)
      requires Valid()
      modifies this`world, this`request, cpu, cpu.ram, cpu.scratch, journal
      ensures Valid() && journal == old(journal)
      ensures exists control: C :: InFlight(control, status) ==
                Steps(devices, call.program, old(InFlight(call.start, Running)), call.steps)
    {
      ghost var begin := InFlight(call.start, Running);
      var control := call.start;
      status := Running;
      var i := 0;
      while i < call.steps
        invariant 0 <= i <= call.steps && Valid() && journal == old(journal)
        invariant InFlight(control, status) == Steps(devices, call.program, begin, i)
      {
        if status.Running? {
          control, status := StepOnce(call.program, control);
        }
        i := i + 1;
      }
    }
  }

  /** Runs a body with `journal` active for the scope of the run, and puts the previous journal back. */
  method RunUnder<C, W>(core: Core<W>, journal: SideEffectJournal, call: Call<C>) returns (status: Status)
    requires core.Valid()
    modifies core, core.cpu, core.cpu.ram, core.cpu.scratch, journal
    ensures core.Valid() && core.journal == old(core.journal)
    ensures var s := Steps(core.devices, call.program,
                           Begin(call.start, old(core.Model()).machine, old(core.request), old(core.world),
                                 Some(old(journal.Model()))), call.steps);
            && core.Model() == CoreState(s.machine, s.request, s.world)
            && s.journal == Some(journal.Model()) && s.status == status
  {
    var outer := core.journal;
    core.journal := journal;
    status := core.RunBody(call);
    core.journal := outer;
  }

  datatype Gate = ServiceGate | SyscallGate | PendingGate

  /** The journal's answer at each kind of host crossing. */
  function Admission(j: Journal, gate: Gate, effect: SideEffect): Response<bool> {
    match gate
    case SyscallGate => AdmittedSyscall(j, effect.value, effect.address)
    case PendingGate => AdmittedPendingWork(j)
    case ServiceGate => AdmittedService(j, effect.kind, effect.address, effect.value)
  }

  // ---- sampling and tallies --------------------------------------------------------------------------

  datatype Selector = Selector(text: string, address: Option<Word>) {
    predicate Matches(entry: Word, name: string) {
      match address
      case Some(a) => entry == a
      case None => name == text
    }
  }

  datatype Config = Config(selectors: seq<Selector>, firstCalls: nat, everyKth: nat, deadStackBytes: Word)

  predicate Selects(config: Config, key: NativeKey, name: string) {
    exists i :: 0 <= i < |config.selectors| && config.selectors[i].Matches(key.address, name)
  }

  /** The first calls, then every k-th; k = 0 samples only the first. */
  predicate Samples(config: Config, call: nat) {
    call <= config.firstCalls || (config.everyKth != 0 && call % config.everyKth == 0)
  }

  /** A key is selected by its address, or by its name where the selector gives no address. */
  lemma SelectsIff(config: Config, key: NativeKey, name: string)
    ensures Selects(config, key, name) <==>
            exists i :: 0 <= i < |config.selectors| &&
                        (config.selectors[i].address == Some(key.address) ||
                         (config.selectors[i].address.None? && config.selectors[i].text == name))
  {
    if Selects(config, key, name) {
      var i :| 0 <= i < |config.selectors| && config.selectors[i].Matches(key.address, name);
      assert config.selectors[i].address == Some(key.address) ||
             (config.selectors[i].address.None? && config.selectors[i].text == name);
    }
  }

  datatype KeyStats = KeyStats(
    key: NativeKey,
    name: string,
    callsSeen: nat,
    sampled: nat,
    matched: nat,
    mismatched: nat,
    incomparable: nat,
    incomparableByReason: map<Ending, nat>,
    deadStackBytesIgnored: int,
    firstMismatch: Option<(nat, Ending)>,
    lastVerdict: Option<Verdict>,
    journalBoundFaults: nat)

  function NewStats(key: NativeKey, name: string): KeyStats {
    KeyStats(key, name, 0, 0, 0, 0, 0, map[], 0, None, None, 0)
  }

  function ReasonCount(byReason: map<Ending, nat>, reason: Ending): nat {
    if reason in byReason then byReason[reason] else 0
  }

  function OneMore(byReason: map<Ending, nat>, reason: Ending): map<Ending, nat> {
    byReason[reason := ReasonCount(byReason, reason) + 1]
  }

  /** One outcome entered into its key's tallies. */
  function Recorded(stats: KeyStats, ending: Ending, deadBytes: int): KeyStats {
    var counted := stats.(
      deadStackBytesIgnored := stats.deadStackBytesIgnored + deadBytes,
      lastVerdict := Some(VerdictOf(ending)),
      journalBoundFaults := stats.journalBoundFaults + if ending == NativeOverran then 1 else 0);
    match VerdictOf(ending)
    case Match => counted.(matched := stats.matched + 1)
    case Mismatch => counted.(mismatched := stats.mismatched + 1,
                              firstMismatch := if stats.firstMismatch.Some? then stats.firstMismatch
                                               else Some((stats.callsSeen, ending)))
    case Incomparable => counted.(incomparable := stats.incomparable + 1,
                                  incomparableByReason := OneMore(stats.incomparableByReason, ending))
  }

  /** One selected call outside any shadow: counted, and shadowed when sampled. */
  function AfterCall(config: Config, stats: KeyStats, ending: Ending, deadBytes: int): KeyStats {
    var seen := stats.(callsSeen := stats.callsSeen + 1);
    if Samples(config, seen.callsSeen) then Recorded(seen.(sampled := seen.sampled + 1), ending, deadBytes) else seen
  }

  /** The tallies after n selected calls, of which call k ends as `endings(k)` if it is sampled. */
  function AfterCalls(config: Config, start: KeyStats, endings: nat -> (Ending, int), n: nat): KeyStats {
    if n == 0 then start
    else AfterCall(config, AfterCalls(config, start, endings, n - 1), endings(n).0, endings(n).1)
  }

  predicate SpeaksFor(ending: Ending) {
    ending == Judged(true)
  }

  predicate SpeaksAgainst(ending: Ending) {
    ending == Judged(false) || ending == OriginalOverran || ending == NativeOverran || ending == NativeDidNotReturn
  }

  /** No verdict can be given. */
  predicate SaysNothing(ending: Ending) {
    ending == OriginalDidNotReturn || ending == OriginalUnreplayable || ending == NativeUnreplayable
  }

  /** How many of the first n calls are sampled and end in one of these ways. */
  function SampledWhere(config: Config, endings: nat -> (Ending, int), n: nat, counts: Ending -> bool): nat {
    if n == 0 then 0
    else
      SampledWhere(config, endings, n - 1, counts) + if Samples(config, n) && counts(endings(n).0) then 1 else 0
  }

  /** The dead-stack bytes ignored over the sampled ones of the first n calls. */
  function IgnoredOver(config: Config, endings: nat -> (Ending, int), n: nat): int {
    if n == 0 then 0 else IgnoredOver(config, endings, n - 1) + if Samples(config, n) then endings(n).1 else 0
  }

  function SampledCalls(config: Config, n: nat): nat {
    if n == 0 then 0 else SampledCalls(config, n - 1) + if Samples(config, n) then 1 else 0
  }

  lemma Quotient(n: nat, k: nat)
    requires n > 0 && k > 0
    ensures n / k == (n - 1) / k + if n % k == 0 then 1 else 0
  {
    var q, r := (n - 1) / k, (n - 1) % k;
    assert n == q * k + (r + 1);
    if r + 1 == k {
      assert n == (q + 1) * k;
      Divides(n, k, q + 1, 0);
    } else {
      Divides(n, k, q, r + 1);
    }
  }

  lemma Divides(n: nat, k: nat, q: nat, r: nat)
    requires k > 0 && r < k && n == q * k + r
    ensures n / k == q && n % k == r
  {
    var gap: int := n / k - q;
    assert gap * k == r - n % k;
    Multiples(gap, k);
  }

  lemma Multiples(gap: int, k: nat)
    ensures (gap >= 1 ==> gap * k >= k) && (gap <= -1 ==> gap * k + k <= 0)
  {
  }

  /** How many calls are sampled: the first ones, and of the later ones every k-th. */
  lemma {:induction false} SampledCallsCount(config: Config, n: nat)
    ensures var first := if n < config.firstCalls then n else config.firstCalls;
            SampledCalls(config, n) ==
            first + if config.everyKth == 0 then 0 else n / config.everyKth - first / config.everyKth
  {
    if n > 0 {
      SampledCallsCount(config, n - 1);
      if config.everyKth > 0 {
        Quotient(n, config.everyKth);
      }
    }
  }

  ghost predicate FirstMismatchAt(config: Config, endings: nat -> (Ending, int), n: nat, first: Option<(nat, Ending)>) {
    match first
    case None => forall k :: 1 <= k <= n && Samples(config, k) ==> !SpeaksAgainst(endings(k).0)
    case Some((call, ending)) =>
      && 1 <= call <= n && Samples(config, call) && ending == endings(call).0 && SpeaksAgainst(ending)
      && forall k :: 1 <= k < call && Samples(config, k) ==> !SpeaksAgainst(endings(k).0)
  }

  lemma CallIsCounted(config: Config, stats: KeyStats, ending: Ending, deadBytes: int)
    ensures var after := AfterCall(config, stats, ending, deadBytes);
            var sampled := Samples(config, stats.callsSeen + 1);
            && after.callsSeen == stats.callsSeen + 1 && after.sampled == stats.sampled + (if sampled then 1 else 0)
            && after.matched == stats.matched + (if sampled && SpeaksFor(ending) then 1 else 0)
            && after.mismatched == stats.mismatched + (if sampled && SpeaksAgainst(ending) then 1 else 0)
            && after.incomparable == stats.incomparable + (if sampled && SaysNothing(ending) then 1 else 0)
            && after.deadStackBytesIgnored == stats.deadStackBytesIgnored + (if sampled then deadBytes else 0)
  {
  }

  lemma {:induction false} TalliesCountVerdicts(config: Config, key: NativeKey, name: string,
                                                endings: nat -> (Ending, int), n: nat)
    ensures var stats := AfterCalls(config, NewStats(key, name), endings, n);
            && stats.callsSeen == n && stats.sampled == SampledCalls(config, n)
            && stats.matched == SampledWhere(config, endings, n, SpeaksFor)
            && stats.mismatched == SampledWhere(config, endings, n, SpeaksAgainst)
            && stats.incomparable == SampledWhere(config, endings, n, SaysNothing)
  {
    if n > 0 {
      TalliesCountVerdicts(config, key, name, endings, n - 1);
      CallIsCounted(config, AfterCalls(config, NewStats(key, name), endings, n - 1), endings(n).0, endings(n).1);
    }
  }

  lemma {:induction false} IgnoredBytesAddUp(config: Config, start: KeyStats, endings: nat -> (Ending, int), n: nat)
    requires start.callsSeen == 0
    ensures var stats := AfterCalls(config, start, endings, n);
            && stats.callsSeen == n
            && stats.deadStackBytesIgnored == start.deadStackBytesIgnored + IgnoredOver(config, endings, n)
  {
    if n > 0 {
      IgnoredBytesAddUp(config, start, endings, n - 1);
      CallIsCounted(config, AfterCalls(config, start, endings, n - 1), endings(n).0, endings(n).1);
    }
  }

  /** The incomparable calls are accounted for by reason, and every bound fault is a mismatch. */
  ghost predicate Explained(stats: KeyStats) {
    && stats.incomparable == Reasons(stats.incomparableByReason)
    && stats.journalBoundFaults <= stats.mismatched
  }

  function Reasons(byReason: map<Ending, nat>): nat {
    ReasonCount(byReason, OriginalDidNotReturn) + ReasonCount(byReason, OriginalUnreplayable) +
    ReasonCount(byReason, NativeUnreplayable)
  }

  lemma OneMoreReason(byReason: map<Ending, nat>, ending: Ending)
    requires VerdictOf(ending) == Incomparable
    ensures Reasons(byReason[ending := ReasonCount(byReason, ending) + 1]) == Reasons(byReason) + 1
  {
  }

  lemma CallKeepsExplained(config: Config, stats: KeyStats, ending: Ending, deadBytes: int)
    requires Explained(stats)
    ensures Explained(AfterCall(config, stats, ending, deadBytes))
  {
    if VerdictOf(ending) == Incomparable {
      OneMoreReason(stats.incomparableByReason, ending);
    }
  }

  lemma {:induction false} ReasonsExplainIncomparable(config: Config, start: KeyStats, endings: nat -> (Ending, int),
                                                      n: nat)
    requires Explained(start)
    ensures Explained(AfterCalls(config, start, endings, n))
  {
    if n > 0 {
      ReasonsExplainIncomparable(config, start, endings, n - 1);
      CallKeepsExplained(config, AfterCalls(config, start, endings, n - 1), endings(n).0, endings(n).1);
    }
  }

  lemma CallKeepsFirstMismatch(config: Config, stats: KeyStats, endings: nat -> (Ending, int), n: nat)
    requires n > 0 && stats.callsSeen == n - 1 && FirstMismatchAt(config, endings, n - 1, stats.firstMismatch)
    ensures FirstMismatchAt(config, endings, n, AfterCall(config, stats, endings(n).0, endings(n).1).firstMismatch)
  {
  }

  lemma {:induction false} FirstMismatchIsTheFirst(config: Config, key: NativeKey, name: string,
                                                   endings: nat -> (Ending, int), n: nat)
    ensures FirstMismatchAt(config, endings, n, AfterCalls(config, NewStats(key, name), endings, n).firstMismatch)
  {
    if n > 0 {
      FirstMismatchIsTheFirst(config, key, name, endings, n - 1);
      TalliesCountVerdicts(config, key, name, endings, n - 1);
      CallKeepsFirstMismatch(config, AfterCalls(config, NewStats(key, name), endings, n - 1), endings, n);
    }
  }

  lemma {:induction false} VerdictsPartitionSamples(config: Config, endings: nat -> (Ending, int), n: nat)
    ensures SampledWhere(config, endings, n, SpeaksFor) + SampledWhere(config, endings, n, SpeaksAgainst) +
            SampledWhere(config, endings, n, SaysNothing) == SampledCalls(config, n)
  {
    if n > 0 {
      VerdictsPartitionSamples(config, endings, n - 1);
    }
  }

  /** Over any number of calls each verdict's tally is exactly the number of sampled calls that ended with it, the
      three add up to the sampled calls, the ignored bytes are those of the sampled calls, the incomparable ones are
      fully explained by reason, and the reported first mismatch is the first. */
  lemma TalliesAreExact(config: Config, key: NativeKey, name: string, endings: nat -> (Ending, int), n: nat)
    ensures var stats := AfterCalls(config, NewStats(key, name), endings, n);
            && stats.sampled == SampledCalls(config, n)
            && stats.matched == SampledWhere(config, endings, n, SpeaksFor)
            && stats.mismatched == SampledWhere(config, endings, n, SpeaksAgainst)
            && stats.incomparable == SampledWhere(config, endings, n, SaysNothing)
            && stats.matched + stats.mismatched + stats.incomparable == stats.sampled
            && stats.deadStackBytesIgnored == IgnoredOver(config, endings, n)
            && Explained(stats)
            && FirstMismatchAt(config, endings, n, stats.firstMismatch)
  {
    TalliesCountVerdicts(config, key, name, endings, n);
    IgnoredBytesAddUp(config, NewStats(key, name), endings, n);
    VerdictsPartitionSamples(config, endings, n);
    ReasonsExplainIncomparable(config, NewStats(key, name), endings, n);
    FirstMismatchIsTheFirst(config, key, name, endings, n);
  }

  /** One shadowed call entered into its key's tallies, told from the two runs: a match is counted iff both bodies
      returned and the contract holds, an incomparable call iff one of them cannot be replayed or the original went
      elsewhere, a mismatch otherwise. */
  ghost predicate Tallied<C, D, W>(before: KeyStats, after: KeyStats, live: Exec<C, W>, shadow: Exec<D, W>,
                                   entry: Machine, deadBytes: Word) {
    var matches, unjudged := HoldsUp(live, shadow, entry, deadBytes), CannotCompare(live, shadow);
    var window := DeadStackWindow(entry.gpr[SP], deadBytes);
    && after.(matched := 0, mismatched := 0, incomparable := 0, incomparableByReason := map[], firstMismatch := None,
              deadStackBytesIgnored := 0, lastVerdict := None, journalBoundFaults := 0) ==
       before.(matched := 0, mismatched := 0, incomparable := 0, incomparableByReason := map[], firstMismatch := None,
               deadStackBytesIgnored := 0, lastVerdict := None, journalBoundFaults := 0)
    && after.matched == before.matched + (if matches then 1 else 0)
    && after.incomparable == before.incomparable + (if unjudged then 1 else 0)
    && after.mismatched == before.mismatched + (if matches || unjudged then 0 else 1)
    && after.lastVerdict == Some(if matches then Match else if unjudged then Incomparable else Mismatch)
    && (matches || unjudged || before.firstMismatch.Some? ==> after.firstMismatch == before.firstMismatch)
    && (!matches && !unjudged && before.firstMismatch.None? ==>
          after.firstMismatch.Some? && after.firstMismatch.value.0 == before.callsSeen)
    && after.journalBoundFaults ==
       before.journalBoundFaults + (if Comparable(live) && shadow.status == Stopped then 1 else 0)
    && after.deadStackBytesIgnored == before.deadStackBytesIgnored +
       (if Comparable(live) && EndedCleanly(shadow) && WentBack(shadow)
        then |DifferingAddresses(live.machine, shadow.machine) * Interval(window.begin, window.end)| else 0)
    && (unjudged ==>
          var reason := if !ReturnedToCaller(live) then OriginalDidNotReturn
                        else if !CanBeReplayed(live) then OriginalUnreplayable else NativeUnreplayable;
          after.incomparableByReason == OneMore(before.incomparableByReason, reason))
    && (!unjudged ==> after.incomparableByReason == before.incomparableByReason)
  }

  lemma {:induction false} ShadowedCallIsTallied<C, D, W>(before: KeyStats, d: Devices<W>, original: Call<C>,
      native: Call<D>, address: Word, core: CoreState<W>, deadBytes: Word)
    requires BothEnd(d, original, native, address, core)
    ensures var live := RunLive(d, original, core);
            var spec := Shadow(d, original, native, address, core, deadBytes);
            live.journal.Some? &&
            Tallied(before, Recorded(before, spec.ending, spec.ignored), live,
                    RunShadow(d, native, core.machine, address, live), core.machine, deadBytes)
  {
    EndingIff(d, original, native, address, core, deadBytes);
    LiveRunIsTheRunAlone(d, original, core);
    ShadowRunReachesNothing(d, native, core.machine, address, RunLive(d, original, core));
  }

  // ---- the differential object -----------------------------------------------------------------------

  class OverrideDifferential {
    const config: Config
    var keys: seq<KeyStats>
    var shadowing: bool

    constructor (config: Config)
      ensures this.config == config && keys == [] && !shadowing
    {
      this.config, keys, shadowing := config, [], false;
    }

    method StatsFor(key: NativeKey, name: string) returns (i: nat)
      modifies this`keys
      ensures i < |keys| && keys[i].key == key && old(keys) <= keys
      ensures if exists k :: 0 <= k < old(|keys|) && old(keys)[k].key == key then keys == old(keys)
              else keys == old(keys) + [NewStats(key, name)] && i == old(|keys|)
    {
      i := 0;
      while i < |keys|
        invariant 0 <= i <= |keys| && keys == old(keys)
        invariant forall k :: 0 <= k < i ==> keys[k].key != key
      {
        if keys[i].key == key {
          return;
        }
        i := i + 1;
      }
      keys := keys + [NewStats(key, name)];
    }

    method Record(i: nat, ending: Ending, deadBytes: int)
      requires i < |keys|
      modifies this`keys
      ensures keys == old(keys)[i := Recorded(old(keys)[i], ending, deadBytes)]
    {
      var stats := keys[i];
      match VerdictOf(ending) {
        case Match =>
          stats := stats.(matched := stats.matched + 1);
        case Mismatch =>
          stats := stats.(mismatched := stats.mismatched + 1);
          if stats.firstMismatch.None? {
            stats := stats.(firstMismatch := Some((stats.callsSeen, ending)));
          }
        case Incomparable =>
          stats := stats.(incomparable := stats.incomparable + 1,
                          incomparableByReason := OneMore(stats.incomparableByReason, ending));
      }
      if ending == NativeOverran {
        stats := stats.(journalBoundFaults := stats.journalBoundFaults + 1);
      }
      stats := stats.(deadStackBytesIgnored := stats.deadStackBytesIgnored + deadBytes,
                      lastVerdict := Some(VerdictOf(ending)));
      keys := keys[i := stats];
    }

    /** Judges a native that ran to its end against the replayed log. */
    method JudgeNative(original: Observation, machine: Machine, request: Option<ExecutionResult>,
                       replay: SideEffectJournal, entry: Machine) returns (ending: Ending, deadBytes: int)
      ensures ending == JudgeEnding(original, machine, request, replay.Model(), entry, config.deadStackBytes)
      ensures deadBytes == IgnoredBytes(ending, original.machine, machine, entry, config.deadStackBytes)
    {
      var native := HostLeafResult(request, entry.gpr[RA]);
      if replay.unreplayable.Some? {
        return NativeUnreplayable, 0;
      }
      if !native.Returned() {
        return NativeDidNotReturn, 0;
      }
      var outcome, _, _ := JudgeCompletedCall(original, Observation(machine, native.guestPc, replay.effects),
                                        entry.gpr[SP], config.deadStackBytes);
      return Judged(outcome.verdict == Match), outcome.deadStackBytesIgnored;
    }

    /** Rolls the machine back to `entry`, runs the native against the replayed log, and rolls forward again. */
    method RunNative<C, D, W>(core: Core<W>, address: Word, entry: Machine, original: ExecutionResult,
                              live: SideEffectJournal, native: Call<D>, ghost liveRun: Exec<C, W>)
      returns (ending: Ending, deadBytes: int)
      requires core.Valid() && core.Model() == CoreState(liveRun.machine, liveRun.request, liveRun.world)
      requires liveRun.journal == Some(live.Model())
      requires !RunShadow(core.devices, native, entry, address, liveRun).status.Running?
      modifies core, core.cpu, core.cpu.ram, core.cpu.scratch
      ensures core.Valid() && core.journal == old(core.journal)
      ensures var shadow := RunShadow(core.devices, native, entry, address, liveRun);
              && shadow.journal.Some?
              && core.Model() == CoreState(Restored(liveRun.machine),
                                           if shadow.status == Stopped then shadow.request else None, shadow.world)
              && ending == if shadow.status == Stopped then NativeOverran
                           else JudgeEnding(Observation(liveRun.machine, original.guestPc, live.effects),
                                            shadow.machine, shadow.request, shadow.journal.value, entry,
                                            config.deadStackBytes)
      ensures deadBytes == IgnoredBytes(ending, liveRun.machine,
                                        RunShadow(core.devices, native, entry, address, liveRun).machine, entry,
                                        config.deadStackBytes)
    {
      var afterOriginal := core.cpu.Capture();
      var _, _ := core.cpu.RestoreInto(entry);
      core.cpu.pc := address;
      var replay := new SideEffectJournal(Replay, live.effects);
      var status := RunUnder(core, replay, native);
      var afterNative := core.cpu.Capture();
      var _, _ := core.cpu.RestoreInto(afterOriginal);
      if status == Stopped {
        return NativeOverran, 0;
      }
      ending, deadBytes := JudgeNative(Observation(afterOriginal, original.guestPc, live.effects), afterNative,
                                       core.request, replay, entry);
      core.request := None;
    }

    /** Runs the original, and the native when there is something to hold it against: what is left on the Core, what is
        returned and how it ended are those of `Shadow`. */
    method RunBoth<C, D, W>(core: Core<W>, address: Word, original: Call<C>, native: Call<D>)
      returns (result: ExecutionResult, ending: Ending, deadBytes: int)
      requires core.Valid() && BothEnd(core.devices, original, native, address, core.Model())
      modifies core, core.cpu, core.cpu.ram, core.cpu.scratch
      ensures core.Valid() && core.journal == old(core.journal)
      ensures var spec := Shadow(core.devices, original, native, address, old(core.Model()), config.deadStackBytes);
              core.Model() == spec.core && result == spec.result && ending == spec.ending && deadBytes == spec.ignored
    {
      ghost var liveRun := RunLive(core.devices, original, core.Model());
      LiveRunIsTheRunAlone(core.devices, original, core.Model());
      var entry := core.cpu.Capture();

      // Nothing is replayed yet: this run reaches the devices itself.
      var live := new SideEffectJournal(SideEffectJournals.Record, []);
      var status := RunUnder(core, live, original);
      result := status.result;
      deadBytes := 0;
      if !result.Returned() {
        return result, OriginalDidNotReturn, 0;
      }
      result := result.(cycles := 0);
      if live.unreplayable.Some? {
        ending := OriginalUnreplayable;
      } else if live.violation.Some? {
        ending := OriginalOverran;
      } else {
        ending, deadBytes := RunNative(core, address, entry, result, live, native, liveRun);
      }
    }

    /** Shadows one call and enters how it ended into the tallies of its key. */
    method ShadowCall<C, D, W>(core: Core<W>, i: nat, original: Call<C>, native: Call<D>)
      returns (result: ExecutionResult)
      requires i < |keys| && core.Valid()
      requires BothEnd(core.devices, original, native, keys[i].key.address, core.Model())
      modifies this, core, core.cpu, core.cpu.ram, core.cpu.scratch
      ensures core.Valid() && core.journal == old(core.journal) && !shadowing
      ensures var spec := Shadow(core.devices, original, native, old(keys)[i].key.address, old(core.Model()),
                                 config.deadStackBytes);
              && core.Model() == spec.core && result == spec.result
              && keys == old(keys)[i := Recorded(old(keys)[i], spec.ending, spec.ignored)]
      ensures var live := RunLive(core.devices, original, old(core.Model()));
              live.journal.Some? &&
              Tallied(old(keys)[i], keys[i], live,
                      RunShadow(core.devices, native, old(core.Model()).machine, old(keys)[i].key.address, live),
                      old(core.Model()).machine, config.deadStackBytes)
    {
      ShadowedCallIsTallied(keys[i], core.devices, original, native, keys[i].key.address, core.Model(),
                            config.deadStackBytes);
      shadowing := true;
      var r, ending, deadBytes := RunBoth(core, keys[i].key.address, original, native);
      result, shadowing := r, false;
      Record(i, ending, deadBytes);
    }

    /** What one selected call left: its key's tallies, the returned exit and the Core. */
    ghost predicate Counted<W>(before: KeyStats, after: KeyStats, entry: CoreState<W>, core: CoreState<W>,
                               result: Option<ExecutionResult>, spec: Shadowed<W>)
    {
      && after == AfterCall(config, before, spec.ending, spec.ignored)
      && (if Samples(config, before.callsSeen + 1) then result == Some(spec.result) && core == spec.core
          else result.None? && core == entry)
    }

    /** One call of a selected key: counted, and shadowed when it is one of those sampled. */
    method CountAndShadow<C, D, W>(core: Core<W>, i: nat, original: Call<C>, native: Call<D>)
      returns (result: Option<ExecutionResult>)
      requires i < |keys| && !shadowing && core.Valid()
      requires BothEnd(core.devices, original, native, keys[i].key.address, core.Model())
      modifies this, core, core.cpu, core.cpu.ram, core.cpu.scratch
      ensures core.Valid() && core.journal == old(core.journal) && !shadowing
      ensures i < |keys| && keys == old(keys)[i := keys[i]]
      ensures Counted(old(keys)[i], keys[i], old(core.Model()), core.Model(), result,
                      Shadow(core.devices, original, native, old(keys)[i].key.address, old(core.Model()),
                             config.deadStackBytes))
    {
      var stats := keys[i].(callsSeen := keys[i].callsSeen + 1);
      if !Samples(config, stats.callsSeen) {
        keys := keys[i := stats];
        return None;
      }
      stats := stats.(sampled := stats.sampled + 1);
      keys := keys[i := stats];
      var r := ShadowCall(core, i, original, native);
      return Some(r);
    }

    /** Asked before a native runs; None means it should run as if nobody had asked. */
    method Intercept<C, D, W>(core: Core<W>, key: NativeKey, name: string, original: Call<C>, native: Call<D>)
      returns (result: Option<ExecutionResult>, ghost i: nat)
      requires core.Valid() && BothEnd(core.devices, original, native, key.address, core.Model())
      modifies this, core, core.cpu, core.cpu.ram, core.cpu.scratch
      ensures core.Valid() && core.journal == old(core.journal) && shadowing == old(shadowing)
      ensures old(shadowing) || !Selects(config, key, name) ==>
                result.None? && core.Model() == old(core.Model()) && keys == old(keys)
      ensures !old(shadowing) && Selects(config, key, name) ==>
                && i < |keys| && keys[i].key == key
                && (forall k :: 0 <= k < old(|keys|) && k != i ==> k < |keys| && keys[k] == old(keys)[k])
                && Counted(if i < old(|keys|) then old(keys)[i] else NewStats(key, name), keys[i], old(core.Model()),
                           core.Model(), result,
                           Shadow(core.devices, original, native, key.address, old(core.Model()),
                                  config.deadStackBytes))
    {
      if shadowing || !Selects(config, key, name) {
        return None, 0;
      }
      var at := StatsFor(key, name);
      assert keys[at] == if at < old(|keys|) then old(keys)[at] else NewStats(key, name);
      result := CountAndShadow(core, at, original, native);
      return result, at;
    }
  }
}
