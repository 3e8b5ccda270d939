/** Where a full effect log defeats the differential: a cut log that still matches, and an exit request left behind. */
module BoundFaults {
  import opened GuestTypes
  import opened MachineSnapshots
  import opened SideEffectJournals
  import opened CallContracts
  import opened CallPrograms
  import opened ShadowRuns

  const GP0: Word := 0x1F80_1810

  const PACKET := SideEffect(DeviceWrite, GP0, 4, 0)

  function Packets(k: nat): seq<SideEffect> {
    seq(k, _ => PACKET)
  }

  /** Sends n packets from translated guest code, then returns to its caller. */
  function Sender(n: nat): Program<int> {
    (c: int, m: Machine) =>
      if c == n + 1 then EnterTranslated(n)
      else if c > 0 then WriteDevice(GP0, 4, 0, c - 1)
      else Exit(ExecutionResult(GuestReturn, m.gpr[RA], 0))
  }

  function SenderCall(n: nat): Call<int> {
    Call(Sender(n), n + 1, n + 2)
  }

  /** After its prelude and k packets the log holds the first BOUND of them and nothing has stopped it. */
  lemma {:induction false} SenderAfter<W>(d: Devices<W>, n: nat, machine: Machine, world: W, mode: Mode,
                                          recorded: seq<SideEffect>, k: nat)
    requires k <= n && mode != Discard
    ensures var start := Begin(n as int + 1, machine, None, world, Some(NewJournal(mode, recorded)));
            var s := Steps(d, Sender(n), start, k + 1);
            && s.control == n - k && s.machine == machine && s.request.None? && s.status == Running
            && s.journal.Some? && s.journal.value.mode == mode && s.journal.value.translated == 1
            && s.journal.value.effects == Packets(if k < BOUND then k else BOUND)
            && s.journal.value.unreplayable.None?
            && (s.journal.value.violation.None? <==> k <= BOUND)
  {
    var start := Begin(n as int + 1, machine, None, world, Some(NewJournal(mode, recorded)));
    if k > 0 {
      SenderAfter(d, n, machine, world, mode, recorded, k - 1);
      var before := Steps(d, Sender(n), start, k);
      assert Steps(d, Sender(n), start, k + 1) == Next(d, Sender(n), before);
    } else {
      assert Steps(d, Sender(n), start, 0) == start;
    }
  }

  lemma SenderEnds<W>(d: Devices<W>, n: nat, machine: Machine, world: W, mode: Mode, recorded: seq<SideEffect>)
    requires mode != Discard
    ensures var start := Begin(n as int + 1, machine, None, world, Some(NewJournal(mode, recorded)));
            var s := Steps(d, Sender(n), start, n + 2);
            && s.machine == machine && s.request.None?
            && s.status == Exited(ExecutionResult(GuestReturn, machine.gpr[RA], 0))
            && s.journal.Some? && s.journal.value.effects == Packets(if n < BOUND then n else BOUND)
            && s.journal.value.unreplayable.None?
            && (s.journal.value.violation.None? <==> n <= BOUND)
  {
    SenderAfter(d, n, machine, world, mode, recorded, n);
  }

  /** There are such calls: a native that sends one packet more than the original, from
      translated frames where the bound cannot raise, is judged a Match on any devices, from any machine. */
  lemma TruncatedReplayIsJudgedAMatch<W>(d: Devices<W>, machine: Machine, world: W, deadBytes: Word)
    requires machine.gpr[ZERO] == 0
    ensures var core := CoreState(machine, None, world);
            && BothEnd(d, SenderCall(BOUND), SenderCall(BOUND + 1), machine.pc, core)
            && Shadow(d, SenderCall(BOUND), SenderCall(BOUND + 1), machine.pc, core, deadBytes).ending == Judged(true)
  {
    var core := CoreState(machine, None, world);
    var original, native := SenderCall(BOUND), SenderCall(BOUND + 1);
    SenderEnds(d, BOUND, machine, world, Record, []);
    LiveRunIsTheRunAlone(d, original, core);
    var live := RunLive(d, original, core);
    assert NativeEntry(machine, machine.pc) == machine;
    SenderEnds(d, BOUND + 1, machine, live.world, Replay, live.journal.value.effects);
    var shadow := RunShadow(d, native, machine, machine.pc, live);
    ContractIsReflexive(Observation(machine, machine.gpr[RA], Packets(BOUND)),
                        DeadStackWindow(machine.gpr[SP], deadBytes));
  }

  // ---- exactly when a truncated log can hide behind a Match ------------------------------------------

  /** Performs a recorded log over again from translated code, sends one packet more, and leaves the given machine. */
  function Echo(log: seq<SideEffect>, end: Machine): Program<int> {
    (c: int, m: Machine) =>
      if c == -2 then ConsumeExit(_ => -1)
      else if c == -1 then EnterTranslated(0)
      else if 0 <= c < |log| then Again(log[c], c + 1)
      else if c == |log| then WriteDevice(GP0, 4, 0, c + 1)
      else if c == |log| + 1 then Compute(c + 1, end)
      else Exit(ExecutionResult(GuestReturn, m.gpr[RA], 0))
  }

  function Again(effect: SideEffect, next: int): Action<int> {
    match effect.kind
    case DeviceRead => ReadDevice(effect.address, effect.width, _ => next)
    case DeviceWrite => WriteDevice(effect.address, effect.width, effect.value, next)
    case _ => CallService(effect.kind, effect.address, effect.value, next, next)
  }

  function EchoCall(log: seq<SideEffect>, end: Machine): Call<int> {
    Call(Echo(log, end), -2, |log| + 5)
  }

  /** The echo has replayed the first k effects of the log exactly. */
  ghost predicate Echoed<W>(s: Exec<int, W>, log: seq<SideEffect>, machine: Machine, k: nat)
    requires k <= |log|
  {
    && s.control == k && s.machine == machine && s.request.None? && s.status == Running
    && s.journal == Some(NewJournal(Replay, log).(effects := log[..k], translated := 1))
  }

  lemma EchoesOneMore<W>(d: Devices<W>, log: seq<SideEffect>, end: Machine, s: Exec<int, W>, machine: Machine, k: nat)
    requires k < |log| <= BOUND && Echoed(s, log, machine, k) && Replayable(log[k])
    ensures Echoed(Next(d, Echo(log, end), s), log, machine, k + 1)
  {
    assert log[..k + 1] == log[..k] + [log[k]];
    assert MatchesRecordedAt(s.journal.value, k, log[k]);
  }

  lemma {:induction false} EchoAfter<W>(d: Devices<W>, log: seq<SideEffect>, end: Machine, begin: Exec<int, W>, k: nat)
    requires k <= |log| <= BOUND && forall i :: 0 <= i < |log| ==> Replayable(log[i])
    requires begin.control == -2 && begin.status == Running && begin.journal == Some(NewJournal(Replay, log))
    ensures Echoed(Steps(d, Echo(log, end), begin, k + 2), log, begin.machine, k)
  {
    if k > 0 {
      EchoAfter(d, log, end, begin, k - 1);
      EchoesOneMore(d, log, end, Steps(d, Echo(log, end), begin, k + 1), begin.machine, k - 1);
    } else {
      var one := Next(d, Echo(log, end), begin);
      assert Steps(d, Echo(log, end), begin, k) == begin;
      assert Steps(d, Echo(log, end), begin, k + 1) == one;
      assert log[..k] == [];
    }
  }

  /** With a log that stands at the bound the packet is refused, nothing stops the echo, and it ends in `end`. */
  lemma EchoEnds<W>(d: Devices<W>, log: seq<SideEffect>, end: Machine, begin: Exec<int, W>)
    requires |log| == BOUND && forall i :: 0 <= i < |log| ==> Replayable(log[i])
    requires begin.control == -2 && begin.status == Running && begin.journal == Some(NewJournal(Replay, log))
    ensures var s := Steps(d, Echo(log, end), begin, |log| + 5);
            && s.machine == end && s.request.None? && s.status.Exited?
            && s.journal.Some? && s.journal.value.effects == log && s.journal.value.unreplayable.None?
            && s.journal.value.violation.Some?
  {
    var n := |log|;
    EchoAfter(d, log, end, begin, n);
    assert log[..n] == log;
    var full := Steps(d, Echo(log, end), begin, n + 2);
    var refused := Next(d, Echo(log, end), full);
    var computed := Next(d, Echo(log, end), refused);
    assert Steps(d, Echo(log, end), begin, n + 3) == refused;
    assert Steps(d, Echo(log, end), begin, n + 4) == computed;
    assert Steps(d, Echo(log, end), begin, n + 5) == Next(d, Echo(log, end), computed);
  }

  /** This native's log was truncated and yet the call was judged a Match. */
  ghost predicate HidesBehindAMatch<C, D, W>(d: Devices<W>, original: Call<C>, native: Call<D>, address: Word,
                                             core: CoreState<W>, deadBytes: Word) {
    && BothEnd(d, original, native, address, core)
    && Shadow(d, original, native, address, core, deadBytes).ending == Judged(true)
    && RunLive(d, original, core).journal.Some?
    && var j := RunShadow(d, native, core.machine, address, RunLive(d, original, core)).journal;
       j.Some? && j.value.violation.Some?
  }

  /** For every original that returns to its caller with a clean log: some native can overrun the bound and still
      be judged a Match if and only if the original itself logged exactly as many effects as the bound admits. */
  lemma TruncationCanHideIff<C, W>(d: Devices<W>, original: Call<C>, address: Word, core: CoreState<W>, deadBytes: Word)
    requires RunAlone(d, original, core).status.Exited?
    requires var result := RunAlone(d, original, core).status.result;
             result.Returned() && result.guestPc == core.machine.gpr[RA]
    requires var j := RunLive(d, original, core).journal;
             j.Some? ==> j.value.unreplayable.None? && j.value.violation.None?
    ensures RunLive(d, original, core).journal.Some?
    ensures (exists native: Call<int> :: HidesBehindAMatch(d, original, native, address, core, deadBytes)) <==>
            |RunLive(d, original, core).journal.value.effects| == BOUND
  {
    LiveRunIsTheRunAlone(d, original, core);
    var live := RunLive(d, original, core);
    var log := live.journal.value.effects;
    if |log| == BOUND {
      RecordedLogIsReplayable(d, original.program,
                              Begin(original.start, core.machine, core.request, core.world,
                                    Some(NewJournal(Record, []))),
                              original.steps);
      EchoHides(d, original, address, core, deadBytes);
    } else if native: Call<int> :| HidesBehindAMatch(d, original, native, address, core, deadBytes) {
      MatchOfAShortOriginalIsUntruncated(d, original, native, address, core, deadBytes);
    }
  }

  lemma EchoHides<C, W>(d: Devices<W>, original: Call<C>, address: Word, core: CoreState<W>, deadBytes: Word)
    requires RunAlone(d, original, core).status.Exited?
    requires var result := RunAlone(d, original, core).status.result;
             result.Returned() && result.guestPc == core.machine.gpr[RA]
    requires var live := RunLive(d, original, core);
             && live.journal.Some? && live.journal.value.unreplayable.None? && live.journal.value.violation.None?
             && |live.journal.value.effects| == BOUND
             && forall i :: 0 <= i < BOUND ==> Replayable(live.journal.value.effects[i])
    ensures var live := RunLive(d, original, core);
            HidesBehindAMatch(d, original, EchoCall(live.journal.value.effects, live.machine), address, core, deadBytes)
  {
    LiveRunIsTheRunAlone(d, original, core);
    var live := RunLive(d, original, core);
    var log := live.journal.value.effects;
    EchoEnds(d, log, live.machine,
             Begin(-2, NativeEntry(core.machine, address), live.request, live.world, Some(NewJournal(Replay, log))));
    ContractIsReflexive(Observation(live.machine, core.machine.gpr[RA], log),
                        DeadStackWindow(core.machine.gpr[SP], deadBytes));
  }

  // ---- exactly when an exit request can leak ---------------------------------------------------------

  const YIELD := ExecutionResult(CooperativeYield, 0, 0)

  /** Asks for an exit, then sends n packets from host code. */
  function Runaway(n: nat): Program<int> {
    (c: int, m: Machine) =>
      if c == n + 1 then RequestExit(YIELD, n)
      else if c > 0 then WriteDevice(GP0, 4, 0, c - 1)
      else Exit(ExecutionResult(GuestReturn, m.gpr[RA], 0))
  }

  function RunawayCall(): Call<int> {
    Call(Runaway(BOUND + 1), BOUND + 2, BOUND + 2)
  }

  lemma {:induction false} RunawayAfter<W>(d: Devices<W>, n: nat, machine: Machine, world: W,
                                           recorded: seq<SideEffect>, k: nat)
    requires k <= n && k <= BOUND
    ensures var start := Begin(n as int + 1, machine, None, world, Some(NewJournal(Replay, recorded)));
            var s := Steps(d, Runaway(n), start, k + 1);
            && s.control == n - k && s.machine == machine && s.request == Some(YIELD) && s.status == Running
            && s.journal.Some? && s.journal.value.mode == Replay && s.journal.value.translated == 0
            && |s.journal.value.effects| == k
  {
    var start := Begin(n as int + 1, machine, None, world, Some(NewJournal(Replay, recorded)));
    if k > 0 {
      RunawayAfter(d, n, machine, world, recorded, k - 1);
      assert Steps(d, Runaway(n), start, k + 1) == Next(d, Runaway(n), Steps(d, Runaway(n), start, k));
    } else {
      assert Steps(d, Runaway(n), start, 0) == start;
    }
  }

  /** Shadowing this native leaves an exit request the original alone would not have left. */
  ghost predicate LeaksARequest<C, D, W>(d: Devices<W>, original: Call<C>, native: Call<D>, address: Word,
                                         core: CoreState<W>, deadBytes: Word) {
    && BothEnd(d, original, native, address, core)
    && Shadow(d, original, native, address, core, deadBytes).core.request != RunAlone(d, original, core).request
  }

  lemma RunawayLeaks<C, W>(d: Devices<W>, original: Call<C>, address: Word, core: CoreState<W>, deadBytes: Word)
    requires RunAlone(d, original, core).status.Exited? && RunAlone(d, original, core).status.result.Returned()
    requires RunAlone(d, original, core).request.None?
    requires var j := RunLive(d, original, core).journal;
             j.Some? && j.value.unreplayable.None? && j.value.violation.None?
    ensures LeaksARequest(d, original, RunawayCall(), address, core, deadBytes)
  {
    LiveRunIsTheRunAlone(d, original, core);
    var live := RunLive(d, original, core);
    var entry := NativeEntry(core.machine, address);
    RunawayAfter(d, BOUND + 1, entry, live.world, live.journal.value.effects, BOUND);
    var shadow := RunShadow(d, RunawayCall(), core.machine, address, live);
    assert shadow.status == Stopped && shadow.request == Some(YIELD);
  }

  /** For every original that consumes its own requests when it returns: some native makes the shadowed call leave
      an exit request that the original never asked for if and only if the native is run at all, that is, the
      original returned with nothing unreplayable and nothing refused. */
  lemma ExitRequestCanLeakIff<C, W>(d: Devices<W>, original: Call<C>, address: Word, core: CoreState<W>,
                                    deadBytes: Word)
    requires RunAlone(d, original, core).status.Exited?
    requires RunAlone(d, original, core).status.result.Returned() ==> RunAlone(d, original, core).request.None?
    ensures RunLive(d, original, core).journal.Some?
    ensures var j := RunLive(d, original, core).journal.value;
            (exists native: Call<int> :: LeaksARequest(d, original, native, address, core, deadBytes)) <==>
            && RunAlone(d, original, core).status.result.Returned()
            && j.unreplayable.None? && j.violation.None?
  {
    LiveRunIsTheRunAlone(d, original, core);
    var j := RunLive(d, original, core).journal.value;
    if RunAlone(d, original, core).status.result.Returned() && j.unreplayable.None? && j.violation.None? {
      RunawayLeaks(d, original, address, core, deadBytes);
    }
  }
}
