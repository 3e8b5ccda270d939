/** The bounded executor loop around Lightrec: segments, block boundaries, budgets and the guest clock. Lightrec, the
    host services and the deadlines are arbitrary answers, one bundle per segment, held only to stated assumptions. */
module LightrecExecutors {
  import opened GuestTypes
  import opened SegmentClocks

  datatype FallbackPolicy = FallbackPolicy(valid: bool, maxBlocks: nat)

  datatype FallbackReason = LoadDelayHazard | OtherFallback

  /** `raised` is pending_work != 0; `gate` that a boundary may stop for it: a Game, no native body, no redirect. */
  datatype Pending = Pending(raised: bool, gate: bool)

  /** One block Lightrec is about to enter: what the boundary callback sees, then what executing it does. */
  datatype Block = Block(
    pc: Word,
    hostService: bool,
    fallback: Option<FallbackReason>,
    instructions: nat,
    accesses: seq<Word>,
    pendingAfter: Pending)

  /** Lightrec's exit flags, besides the two that a callback's own answer raises. Several may be set at once. */
  datatype ExitFlag = ObserverFlag | FaultFlag | DelaySlotFlag | SyscallFlag | BreakFlag | InterruptFlag

  /** A host service, a pending-work service or a syscall: what it returned, the ticks nested runs charged, and how it
      left pending work, the pc and any exit request. */
  datatype Service = Service(result: ExecutionResult, ticks: nat, pending: Pending, pc: Word,
                             request: Option<ExecutionResult>)

  /** Everything the environment answers during one pass of the loop. */
  datatype Segment = Segment(
    untilFieldDue: nat,
    untilDeviceEvent: Option<nat>,
    blocks: seq<Block>,
    flags: set<ExitFlag>,
    syscallHandled: bool,
    exitPc: Word,
    pendingAfterAccounting: Pending,
    request: Option<ExecutionResult>,
    service: Service)

  function Instructions(blocks: seq<Block>): nat {
    if |blocks| == 0 then 0 else Instructions(blocks[..|blocks| - 1]) + blocks[|blocks| - 1].instructions
  }

  /** The cycles at which some blocks access a device, in order. */
  function Accesses(blocks: seq<Block>): seq<Word> {
    if |blocks| == 0 then [] else Accesses(blocks[..|blocks| - 1]) + blocks[|blocks| - 1].accesses
  }

  /** The clock each access finds: one tick for every two cycles since the segment began. */
  ghost predicate SeenInTime(seen: seq<nat>, accesses: seq<Word>, start: int) {
    |seen| == |accesses| && forall i :: 0 <= i < |seen| ==> seen[i] == start + accesses[i] / 2
  }

  lemma SeenJoins(seen: seq<nat>, accesses: seq<Word>, more: seq<nat>, later: seq<Word>, start: int)
    requires SeenInTime(seen, accesses, start) && SeenInTime(more, later, start)
    ensures SeenInTime(seen + more, accesses + later, start)
  {
  }

  lemma {:induction false} MoreAccesses(blocks: seq<Block>, k: nat)
    requires k < |blocks|
    ensures Accesses(blocks[..k + 1]) == Accesses(blocks[..k]) + blocks[k].accesses
  {
    assert blocks[..k + 1][..k] == blocks[..k];
  }

  /** The cycle counter never falls within a segment and never exceeds two cycles an executed instruction. */
  ghost predicate CounterSteady(blocks: seq<Block>) {
    && (forall k, i :: 0 <= k < |blocks| && 0 <= i < |blocks[k].accesses| ==>
          blocks[k].accesses[i] <= 2 * Instructions(blocks[..k + 1]))
    && (forall k, i, j :: 0 <= k < |blocks| && 0 <= i <= j < |blocks[k].accesses| ==>
          blocks[k].accesses[i] <= blocks[k].accesses[j])
    && (forall k, m, i, j :: 0 <= k < m < |blocks| && 0 <= i < |blocks[k].accesses| && 0 <= j < |blocks[m].accesses| ==>
          blocks[k].accesses[i] <= blocks[m].accesses[j])
  }

  /** No access from block k on lies behind cycle c. */
  ghost predicate NotPassed(c: nat, blocks: seq<Block>, k: nat) {
    forall m, i :: k <= m < |blocks| && 0 <= i < |blocks[m].accesses| ==> c <= blocks[m].accesses[i]
  }

  /** Flags that end the call whatever else is set. */
  predicate EndsTheCall(flags: set<ExitFlag>) {
    || ObserverFlag in flags || FaultFlag in flags || DelaySlotFlag in flags
    || (BreakFlag in flags && SyscallFlag !in flags)
  }

  /** What is assumed of lightrec_execute from `pc`: the first block is the one at pc, a block executes at least one
      instruction, and a segment that runs none either stops at its first boundary or ends the call. */
  ghost predicate Admissible(s: Segment, pc: Word) {
    && (forall k :: 0 <= k < |s.blocks| ==> s.blocks[k].instructions >= 1)
    && CounterSteady(s.blocks)
    && (if |s.blocks| == 0 then EndsTheCall(s.flags) else s.blocks[0].pc == pc)
  }

  // ---- targets ---------------------------------------------------------------------------------------

  const MAX_TICKS := 0x7FFF_FFFF

  /** Ticks to Lightrec cycles, two a tick, clamped so the product fits its 32-bit counter. */
  function TargetCycle(ticks: nat): (target: nat)
    ensures target == if 2 * ticks < 0x1_0000_0000 then 2 * ticks else 0xFFFF_FFFE
  {
    (if ticks < MAX_TICKS then ticks else MAX_TICKS) * CYCLES_PER_INSTRUCTION
  }

  function Min(a: nat, b: nat): nat { if a < b then a else b }

  /** b ticks do not run past the deadline; one that is zero is no deadline. */
  predicate Meets(b: nat, due: nat) {
    due == 0 || b <= due
  }

  /** What a segment may spend: what is left of the call's cycles, shortened by either deadline that is not zero. It
      passes none of the three, and spends up to the first of them. */
  function SegmentBudget(left: nat, game: bool, s: Segment): (b: nat)
    requires left > 0
    ensures 0 < b <= left
    ensures game ==> Meets(b, s.untilFieldDue) && (s.untilDeviceEvent.Some? ==> Meets(b, s.untilDeviceEvent.value))
    ensures b == left || (game && (b == s.untilFieldDue || s.untilDeviceEvent == Some(b)))
  {
    if !game then left
    else
      var field := if s.untilFieldDue != 0 then Min(left, s.untilFieldDue) else left;
      if s.untilDeviceEvent.Some? && s.untilDeviceEvent.value != 0 then Min(field, s.untilDeviceEvent.value) else field
  }

  // ---- one segment -----------------------------------------------------------------------------------

  datatype BoundaryReason = NoReason | AtReturn | AtHostService | AtPendingWork

  datatype Boundary = Boundary(returnAddress: Option<Word>, dispatchHostServices: bool, skipPendingOnce: bool,
                               policy: FallbackPolicy, admitted: nat)

  datatype BoundaryAction = Continue(boundary: Boundary) | Stop(reason: BoundaryReason, boundary: Boundary)

  /** The block-boundary callback. */
  function AtBoundary(b: Boundary, block: Block, pending: Pending): BoundaryAction {
    if b.returnAddress == Some(block.pc) then Stop(AtReturn, b)
    else if !b.skipPendingOnce && pending.gate && pending.raised then Stop(AtPendingWork, b)
    else
      var after := b.(skipPendingOnce := false);
      if b.dispatchHostServices && block.hostService then Stop(AtHostService, after) else Continue(after)
  }

  /** The fallback-admission callback: None refuses the block. */
  function AdmitFallback(b: Boundary, fallback: Option<FallbackReason>): Option<Boundary> {
    match fallback
    case None => Some(b)
    case Some(LoadDelayHazard) => Some(b)
    case Some(OtherFallback) => if b.admitted < b.policy.maxBlocks then Some(b.(admitted := b.admitted + 1)) else None
  }

  datatype Ended =
    | StoppedAt(reason: BoundaryReason, pc: Word)
    | FallbackRefused(pc: Word)
    | RanOut

  /** Why the call ended, with the pc it handed back. */
  datatype CallExit =
    | ReachedReturn
    | Requested
    | ServiceExit
    | SyscallExit
    | BreakExit
    | PendingExit
    | Exhausted
    | Faulted

  /** What the loop does after a segment. */
  datatype Decision =
    | Leave(result: ExecutionResult, exit: CallExit)
    | DispatchTo(pc: Word)
    | ServicePendingWork
    | ServiceInterrupt
    | AfterSyscall(pc: Word)
    | Resume(pc: Word)

  /** The exit a pending request turns into: placed at the given pc if it names none, with the cycles so far. */
  function Consume(request: ExecutionResult, unstatedPc: Word, cycles: nat): ExecutionResult {
    request.(guestPc := if request.guestPc == 0 then unstatedPc else request.guestPc, cycles := request.cycles + cycles)
  }

  function PlusFour(pc: Word): Word {
    (pc + 4) % 0x1_0000_0000
  }

  /** Where a segment stopped. */
  function StopPc(s: Segment, ended: Ended): Word {
    match ended
    case StoppedAt(_, pc) => pc
    case FallbackRefused(pc) => pc
    case RanOut => s.exitPc
  }

  /** Flags are cleared on entry and raised only by executed code, so a stop at the first boundary finds none. */
  function Flags(s: Segment, ended: Ended, instructions: nat): set<ExitFlag> {
    if ended.StoppedAt? && instructions == 0 then {} else s.flags
  }

  /** The exit flags in the order the loop tests them. */
  function Decide(s: Segment, ended: Ended, flags: set<ExitFlag>, consumed: nat, dispatchHostServices: bool,
                  cycles: nat): Decision {
    var pc := StopPc(s, ended);
    if ended.FallbackRefused? then Leave(ExecutionResult(Fault, pc, consumed), Faulted)
    else if ObserverFlag in flags then Leave(ExecutionResult(Fault, pc, consumed), Faulted)
    else if s.request.Some? then Leave(Consume(s.request.value, pc, consumed), Requested)
    else if FaultFlag in flags || DelaySlotFlag in flags then Leave(ExecutionResult(Fault, pc, consumed), Faulted)
    else if SyscallFlag in flags then
      if !s.syscallHandled then Leave(ExecutionResult(Fault, pc, consumed), Faulted)
      else if dispatchHostServices then AfterSyscall(PlusFour(pc))
      else Leave(ExecutionResult(InterruptOrException, PlusFour(pc), consumed), SyscallExit)
    else if BreakFlag in flags then Leave(ExecutionResult(HostService, PlusFour(pc), consumed), BreakExit)
    else if ended.StoppedAt? then
      match ended.reason
      case AtReturn => Leave(ExecutionResult(GuestReturn, pc, consumed), ReachedReturn)
      case AtHostService => DispatchTo(pc)
      case AtPendingWork => ServicePendingWork
      case NoReason => Leave(ExecutionResult(Fault, pc, consumed), Faulted)
    else if InterruptFlag in flags then ServiceInterrupt
    else if consumed < cycles then Resume(pc)
    else Leave(ExecutionResult(BudgetExhausted, pc, consumed), Exhausted)
  }

  /** Nothing ended the segment by itself: no refused fallback, rejected observer, exit request or fault. */
  predicate Unhurt(s: Segment, ended: Ended, flags: set<ExitFlag>) {
    && !ended.FallbackRefused? && ObserverFlag !in flags && s.request.None?
    && FaultFlag !in flags && DelaySlotFlag !in flags
  }

  /** Nor a syscall or a break: what a callback or a deadline stopped. */
  predicate Undisturbed(s: Segment, ended: Ended, flags: set<ExitFlag>) {
    Unhurt(s, ended, flags) && SyscallFlag !in flags && BreakFlag !in flags
  }

  /** Each thing the loop can do, and exactly when, whatever set of flags is raised together. */
  lemma DecisionIff(s: Segment, ended: Ended, flags: set<ExitFlag>, consumed: nat, dispatchHostServices: bool,
                    cycles: nat)
    ensures var d := Decide(s, ended, flags, consumed, dispatchHostServices, cycles);
            var pc := if ended.RanOut? then s.exitPc else ended.pc;
            var past := (pc + 4) % 0x1_0000_0000;
            var syscall := Unhurt(s, ended, flags) && SyscallFlag in flags;
            var stopped, ranOut := Undisturbed(s, ended, flags) && ended.StoppedAt?,
                                   Undisturbed(s, ended, flags) && ended.RanOut?;
            && (d == Leave(ExecutionResult(Fault, pc, consumed), Faulted) <==>
                || ended.FallbackRefused? || ObserverFlag in flags
                || (s.request.None? && (FaultFlag in flags || DelaySlotFlag in flags))
                || (syscall && !s.syscallHandled) || (stopped && ended.reason == NoReason))
            && (d.Leave? && d.exit == Requested <==>
                !ended.FallbackRefused? && ObserverFlag !in flags && s.request.Some?)
            && (d == AfterSyscall(past) <==> syscall && s.syscallHandled && dispatchHostServices)
            && (d == Leave(ExecutionResult(InterruptOrException, past, consumed), SyscallExit) <==>
                syscall && s.syscallHandled && !dispatchHostServices)
            && (d == Leave(ExecutionResult(HostService, past, consumed), BreakExit) <==>
                Unhurt(s, ended, flags) && SyscallFlag !in flags && BreakFlag in flags)
            && (d == Leave(ExecutionResult(GuestReturn, pc, consumed), ReachedReturn) <==>
                stopped && ended.reason == AtReturn)
            && (d == DispatchTo(pc) <==> stopped && ended.reason == AtHostService)
            && (d == ServicePendingWork <==> stopped && ended.reason == AtPendingWork)
            && (d == ServiceInterrupt <==> ranOut && InterruptFlag in flags)
            && (d == Resume(pc) <==> ranOut && InterruptFlag !in flags && consumed < cycles)
            && (d == Leave(ExecutionResult(BudgetExhausted, pc, consumed), Exhausted) <==>
                ranOut && InterruptFlag !in flags && consumed >= cycles)
  {
  }

  /** A request leaves at the pc it names, or where the segment stopped, with the cycles so far on top of its own. */
  lemma RequestIsConsumed(request: ExecutionResult, unstatedPc: Word, cycles: nat)
    ensures var r := Consume(request, unstatedPc, cycles);
            && r.reason == request.reason && r.cycles == request.cycles + cycles
            && (r.guestPc == if request.guestPc != 0 then request.guestPc else unstatedPc)
  {
  }

  /** What every exit promises of its result; `stop` is where the last segment stopped. */
  ghost predicate Honest(result: ExecutionResult, exit: CallExit, stop: Word, returnAddress: Option<Word>,
                         consumed: nat, hostDispatches: nat, budget: Budget) {
    match exit
    case ReachedReturn => result == ExecutionResult(GuestReturn, stop, consumed) && returnAddress == Some(stop)
    case Exhausted => result == ExecutionResult(BudgetExhausted, stop, consumed) &&
                      (consumed >= budget.cycles || hostDispatches == budget.maxHostDispatches)
    case Faulted => result == ExecutionResult(Fault, stop, consumed)
    case SyscallExit => result == ExecutionResult(InterruptOrException, (stop + 4) % 0x1_0000_0000, consumed)
    case BreakExit => result == ExecutionResult(HostService, (stop + 4) % 0x1_0000_0000, consumed)
    case PendingExit => result.reason == HostService && result.cycles == consumed
    case Requested => result.cycles >= consumed
    case ServiceExit => result.cycles >= consumed && !result.Returned()
  }

  /** The loop's variables between segments. */
  datatype Loop = Loop(boundary: Boundary, pending: Pending, nextPc: Word, consumed: nat, dispatches: nat) {
    /** Zero progress is possible only by stopping for pending work at the first boundary. */
    function Rank(): nat {
      if !boundary.skipPendingOnce && pending.gate && pending.raised then 1 else 0
    }

    /** Grows by at least one with every pass: two for each instruction or dispatch, one for an idle pass. */
    function Potential(): int {
      2 * (consumed + dispatches) - Rank()
    }
  }

  /** One pass: the variables for the next segment or the exit taken, and the ticks a service charged. */
  datatype Pass = Pass(next: Loop, exit: Option<(ExecutionResult, CallExit)>, ticks: nat)

  /** Pending work rises only through executed code, accounting or a service: a segment that executed nothing leaves it
      as it was. */
  function Proceed(before: Loop, budget: Budget, s: Segment, boundary: Boundary, ended: Ended,
                   instructions: nat): Pass {
    var consumed := before.consumed + instructions;
    var l := before.(boundary := boundary, consumed := consumed,
                     pending := if instructions > 0 then s.pendingAfterAccounting else before.pending);
    var service := s.service;
    var flags := Flags(s, ended, instructions);
    match Decide(s, ended, flags, consumed, boundary.dispatchHostServices, budget.cycles)
    case Leave(result, exit) => Pass(l, Some((result, exit)), 0)
    case AfterSyscall(pc) => Pass(l.(nextPc := pc, pending := service.pending), None, 0)
    case Resume(pc) => Pass(l.(nextPc := pc), None, 0)
    case DispatchTo(pc) =>
      if l.dispatches >= budget.maxHostDispatches then
        Pass(l, Some((ExecutionResult(BudgetExhausted, pc, consumed), Exhausted)), 0)
      else
        var result := service.result.(cycles := service.result.cycles + consumed);
        Pass(l.(dispatches := l.dispatches + 1, pending := service.pending, nextPc := result.guestPc),
             if result.Returned() then None else Some((result, ServiceExit)), service.ticks)
    case ServicePendingWork =>
      Pass(l.(pending := service.pending, boundary := boundary.(skipPendingOnce := service.pending.raised),
              nextPc := service.pc),
           if service.request.Some? then Some((Consume(service.request.value, service.pc, consumed), Requested))
           else if boundary.dispatchHostServices then None
           else Some((ExecutionResult(HostService, service.pc, consumed), PendingExit)),
           service.ticks)
    case ServiceInterrupt =>
      Pass(l.(pending := service.pending, nextPc := service.pc),
           if service.request.Some? then Some((Consume(service.request.value, service.pc, consumed), Requested))
           else if boundary.dispatchHostServices then None
           else Some((ExecutionResult(HostService, s.exitPc, consumed), PendingExit)),
           service.ticks)
  }

  /** What running a segment tells the loop. */
  ghost predicate Ran(before: Loop, s: Segment, boundary: Boundary, ended: Ended, instructions: nat) {
    && boundary == before.boundary.(skipPendingOnce := boundary.skipPendingOnce, admitted := boundary.admitted)
    && boundary.admitted <= boundary.policy.maxBlocks
    && (ended.RanOut? && !EndsTheCall(s.flags) ==> instructions >= 1)
    && (ended.StoppedAt? ==> ended.reason != NoReason)
    && (ended.StoppedAt? && ended.reason == AtReturn ==> boundary.returnAddress == Some(ended.pc))
    && (ended.StoppedAt? && ended.reason == AtPendingWork && instructions == 0 ==> before.Rank() == 1)
  }

  /** When the loop goes on, where, and what a service it made on the way leaves behind. */
  lemma GoesOnIff(before: Loop, budget: Budget, s: Segment, boundary: Boundary, ended: Ended, instructions: nat)
    ensures var consumed := before.consumed + instructions;
            var d := Decide(s, ended, Flags(s, ended, instructions), consumed, boundary.dispatchHostServices,
                            budget.cycles);
            var pass := Proceed(before, budget, s, boundary, ended, instructions);
            var dispatched := d.DispatchTo? && before.dispatches < budget.maxHostDispatches;
            var pendingServiced := d == ServicePendingWork || d == ServiceInterrupt;
            && (pass.exit.None? <==> || d.AfterSyscall? || d.Resume? || (dispatched && s.service.result.Returned())
                                     || (pendingServiced && s.service.request.None? && boundary.dispatchHostServices))
            && (d.AfterSyscall? || d.Resume? ==> pass.next.nextPc == d.pc)
            && (dispatched ==> pass.next.nextPc == s.service.result.guestPc)
            && (pendingServiced ==> pass.next.nextPc == s.service.pc)
            && pass.next.consumed == consumed
            && pass.next.dispatches == before.dispatches + (if dispatched then 1 else 0)
            && pass.ticks == (if dispatched || pendingServiced then s.service.ticks else 0)
            && pass.next.boundary ==
               boundary.(skipPendingOnce := if d == ServicePendingWork then s.service.pending.raised
                                            else boundary.skipPendingOnce)
            && (pass.next.pending ==
                if dispatched || pendingServiced || d.AfterSyscall? then s.service.pending
                else if instructions > 0 then s.pendingAfterAccounting else before.pending)
  {
  }

  /** A pass that does not leave executes an instruction, uses a dispatch, or uses up the one idle pass; one that
      leaves tells the truth about why. */
  lemma PassProgresses(before: Loop, budget: Budget, s: Segment, boundary: Boundary, ended: Ended, instructions: nat)
    requires Ran(before, s, boundary, ended, instructions) && before.dispatches <= budget.maxHostDispatches
    ensures var pass := Proceed(before, budget, s, boundary, ended, instructions);
            && pass.next.consumed == before.consumed + instructions
            && before.dispatches <= pass.next.dispatches <= budget.maxHostDispatches
            && pass.next.boundary == boundary.(skipPendingOnce := pass.next.boundary.skipPendingOnce)
            && (pass.exit.None? ==> instructions > 0 || pass.next.dispatches > before.dispatches ||
                                    (before.Rank() == 1 && pass.next.Rank() == 0))
            && (pass.exit.Some? ==> Honest(pass.exit.value.0, pass.exit.value.1, StopPc(s, ended),
                                           boundary.returnAddress, pass.next.consumed, pass.next.dispatches, budget))
  {
  }

  /** One whole pass of the loop, under some admissible answers of the environment, that does not leave it. */
  ghost predicate GoesOn(before: Loop, after: Loop, budget: Budget) {
    && before.consumed < budget.cycles && before.dispatches <= budget.maxHostDispatches
    && exists s: Segment, boundary: Boundary, ended: Ended, instructions: nat ::
         && Ran(before, s, boundary, ended, instructions)
         && Proceed(before, budget, s, boundary, ended, instructions).exit.None?
         && after == Proceed(before, budget, s, boundary, ended, instructions).next
  }

  lemma GoingOnRaisesPotential(before: Loop, after: Loop, budget: Budget)
    requires GoesOn(before, after, budget)
    ensures before.Potential() < after.Potential() && after.dispatches <= budget.maxHostDispatches
  {
    var s: Segment, boundary: Boundary, ended: Ended, instructions: nat :|
      && Ran(before, s, boundary, ended, instructions)
      && Proceed(before, budget, s, boundary, ended, instructions).exit.None?
      && after == Proceed(before, budget, s, boundary, ended, instructions).next;
    PassProgresses(before, budget, s, boundary, ended, instructions);
  }

  /** Every run of the loop is finite, whatever Lightrec and the services answer: its passes are bounded by the cycle
      and dispatch budgets, idle passes for pending work included. */
  lemma {:induction false} EveryRunIsBounded(run: seq<Loop>, budget: Budget)
    requires |run| > 0 && run[0].consumed == 0 && run[0].dispatches == 0
    requires forall i :: 0 <= i < |run| - 1 ==> GoesOn(run[i], run[i + 1], budget)
    ensures run[|run| - 1].Potential() >= |run| - 2
    ensures |run| - 1 <= MostPasses(budget) == 2 * (budget.cycles + budget.maxHostDispatches)
  {
    if |run| > 1 {
      var init := run[..|run| - 1];
      forall i | 0 <= i < |init| - 1 ensures GoesOn(init[i], init[i + 1], budget) {
        assert GoesOn(run[i], run[i + 1], budget);
      }
      EveryRunIsBounded(init, budget);
      assert GoesOn(run[|run| - 2], run[|run| - 2 + 1], budget);
      GoingOnRaisesPotential(run[|run| - 2], run[|run| - 1], budget);
    }
  }

  /** The callbacks at one block: where it stops, or the boundary it is entered with. */
  function EnterBlock(boundary: Boundary, block: Block, pending: Pending): (Boundary, Ended) {
    match AtBoundary(boundary, block, pending)
    case Stop(reason, after) => (after, StoppedAt(reason, block.pc))
    case Continue(after) =>
      match AdmitFallback(after, block.fallback)
      case None => (after, FallbackRefused(block.pc))
      case Some(admitted) => (admitted, RanOut)
  }

  /** When a block is entered and what stops it otherwise: its return address, raised pending work that is not to be
      skipped once, a host service, and last a fallback past the limit. */
  lemma EnterBlockIff(boundary: Boundary, block: Block, pending: Pending)
    ensures var (after, ended) := EnterBlock(boundary, block, pending);
            var back := boundary.returnAddress == Some(block.pc);
            var serviced := !boundary.skipPendingOnce && pending.gate && pending.raised;
            var hosted := boundary.dispatchHostServices && block.hostService;
            var admits := block.fallback != Some(OtherFallback) || boundary.admitted < boundary.policy.maxBlocks;
            && (ended == StoppedAt(AtReturn, block.pc) <==> back)
            && (ended == StoppedAt(AtPendingWork, block.pc) <==> !back && serviced)
            && (ended == StoppedAt(AtHostService, block.pc) <==> !back && !serviced && hosted)
            && (ended == FallbackRefused(block.pc) <==> !back && !serviced && !hosted && !admits)
            && (ended == RanOut <==> !back && !serviced && !hosted && admits)
            && after.skipPendingOnce == (boundary.skipPendingOnce && back)
  {
  }

  lemma EnterBlockKeepsLimits(boundary: Boundary, block: Block, pending: Pending)
    requires boundary.admitted <= boundary.policy.maxBlocks
    ensures var (after, ended) := EnterBlock(boundary, block, pending);
            && after == boundary.(skipPendingOnce := after.skipPendingOnce, admitted := after.admitted)
            && boundary.admitted <= after.admitted <= boundary.policy.maxBlocks
            && (ended.StoppedAt? ==> ended.reason != NoReason)
            && (ended.StoppedAt? && ended.reason == AtReturn ==> boundary.returnAddress == Some(ended.pc))
            && (ended.StoppedAt? && ended.reason == AtPendingWork ==>
                  !boundary.skipPendingOnce && pending.gate && pending.raised)
  {
  }

  /** The loop's variables as a call enters it. */
  function Entered(guestAddress: Word, returnAddress: Option<Word>, dispatchHostServices: bool, policy: FallbackPolicy,
                   pending: Pending): Loop {
    Loop(Boundary(returnAddress, dispatchHostServices, false, policy, 0), pending, guestAddress, 0, 0)
  }

  // ---- a segment's blocks as a walk ------------------------------------------------------------------

  /** How far a segment came: the boundary it left, how it ended and how many of its blocks were executed. */
  datatype Walked = Walked(boundary: Boundary, ended: Ended, entered: nat)

  /** The blocks from the k-th on, entered one after another until a callback stops them. */
  function Walk(blocks: seq<Block>, boundary: Boundary, pending: Pending, k: nat): (w: Walked)
    requires k <= |blocks|
    ensures k <= w.entered <= |blocks| && (w.ended.RanOut? <==> w.entered == |blocks|)
    decreases |blocks| - k
  {
    if k == |blocks| then Walked(boundary, RanOut, k)
    else
      var (after, how) := EnterBlock(boundary, blocks[k], pending);
      if !how.RanOut? then Walked(after, how, k) else Walk(blocks, after, blocks[k].pendingAfter, k + 1)
  }

  lemma {:induction false} WalkKeepsLimits(blocks: seq<Block>, boundary: Boundary, pending: Pending, k: nat)
    requires k <= |blocks| && boundary.admitted <= boundary.policy.maxBlocks
    ensures var w := Walk(blocks, boundary, pending, k);
            && w.boundary == boundary.(skipPendingOnce := w.boundary.skipPendingOnce, admitted := w.boundary.admitted)
            && w.boundary.admitted <= boundary.policy.maxBlocks
            && (w.ended.StoppedAt? ==> w.ended.reason != NoReason)
            && (w.ended.StoppedAt? && w.ended.reason == AtReturn ==> boundary.returnAddress == Some(w.ended.pc))
            && (w.ended.StoppedAt? && w.ended.reason == AtPendingWork && w.entered == k ==>
                  !boundary.skipPendingOnce && pending.gate && pending.raised)
    decreases |blocks| - k
  {
    if k < |blocks| {
      EnterBlockKeepsLimits(boundary, blocks[k], pending);
      var (after, how) := EnterBlock(boundary, blocks[k], pending);
      if how.RanOut? {
        WalkKeepsLimits(blocks, after, blocks[k].pendingAfter, k + 1);
      }
    }
  }

  lemma {:induction false} InstructionsOfBlocks(blocks: seq<Block>)
    requires forall k :: 0 <= k < |blocks| ==> blocks[k].instructions >= 1
    ensures Instructions(blocks) >= |blocks|
  {
    if |blocks| > 0 {
      InstructionsOfBlocks(blocks[..|blocks| - 1]);
    }
  }

  /** A walk over admissible blocks tells the loop what it relies on. */
  lemma {:induction false} WalkRuns(before: Loop, s: Segment)
    requires Admissible(s, before.nextPc) && before.boundary.admitted <= before.boundary.policy.maxBlocks
    ensures var w := Walk(s.blocks, before.boundary, before.pending, 0);
            Ran(before, s, w.boundary, w.ended, Instructions(s.blocks[..w.entered]))
  {
    var w := Walk(s.blocks, before.boundary, before.pending, 0);
    WalkKeepsLimits(s.blocks, before.boundary, before.pending, 0);
    InstructionsOfBlocks(s.blocks[..w.entered]);
  }

  predicate Interprets(block: Block) {
    block.fallback == Some(OtherFallback)
  }

  /** How many blocks Lightrec interpreted for another reason than a load-delay hazard. */
  function Interpreted(blocks: seq<Block>): nat {
    if |blocks| == 0 then 0
    else Interpreted(blocks[..|blocks| - 1]) + if Interprets(blocks[|blocks| - 1]) then 1 else 0
  }

  /** The admission counter counts the interpreted blocks that were executed, no more and no fewer. */
  lemma {:induction false} WalkCountsInterpreted(blocks: seq<Block>, boundary: Boundary, pending: Pending, k: nat)
    requires k <= |blocks|
    ensures var w := Walk(blocks, boundary, pending, k);
            w.boundary.admitted == boundary.admitted + Interpreted(blocks[..w.entered]) - Interpreted(blocks[..k])
    decreases |blocks| - k
  {
    if k < |blocks| {
      var (after, how) := EnterBlock(boundary, blocks[k], pending);
      assert blocks[..k + 1][..k] == blocks[..k];
      if how.RanOut? {
        WalkCountsInterpreted(blocks, after, blocks[k].pendingAfter, k + 1);
      }
    }
  }

  // ---- the loop as a trace ---------------------------------------------------------------------------

  /** One pass of the loop: its variables at the start, what the environment answered, the budget and target the segment
      was given, how far it walked, the blocks it executed, and what the loop made of that. */
  datatype SegmentRun = SegmentRun(before: Loop, segment: Segment, budget: nat, target: nat, walked: Walked,
                                   executed: seq<Block>, pass: Pass)

  /** The segment is given cycles up to the first of what is left and, with a Game, the field and device deadlines, and
      a target of two Lightrec cycles a tick, or as many as fit. */
  ghost predicate Budgeted(run: SegmentRun, cycles: nat, game: bool) {
    var left, s := cycles - run.before.consumed, run.segment;
    && 0 < run.budget <= left
    && (game ==> Meets(run.budget, s.untilFieldDue) &&
                 (s.untilDeviceEvent.Some? ==> Meets(run.budget, s.untilDeviceEvent.value)))
    && (run.budget == left || (game && (run.budget == s.untilFieldDue || s.untilDeviceEvent == Some(run.budget))))
    && run.target == (if 2 * run.budget < 0x1_0000_0000 then 2 * run.budget else 0xFFFF_FFFE)
  }

  /** The pass is what the loop does with those answers. */
  ghost predicate Genuine(run: SegmentRun, budget: Budget, game: bool) {
    && Budgeted(run, budget.cycles, game)
    && run.walked == Walk(run.segment.blocks, run.before.boundary, run.before.pending, 0)
    && run.executed == run.segment.blocks[..run.walked.entered]
    && run.pass == Proceed(run.before, budget, run.segment, run.walked.boundary, run.walked.ended,
                           Instructions(run.executed))
    && Ran(run.before, run.segment, run.walked.boundary, run.walked.ended, Instructions(run.executed))
  }

  ghost predicate AllGenuine(trace: seq<SegmentRun>, budget: Budget, game: bool) {
    forall i :: 0 <= i < |trace| ==> Genuine(trace[i], budget, game)
  }

  function TotalInstructions(trace: seq<SegmentRun>): nat {
    if |trace| == 0 then 0 else TotalInstructions(trace[..|trace| - 1]) + Instructions(trace[|trace| - 1].executed)
  }

  function TotalInterpreted(trace: seq<SegmentRun>): nat {
    if |trace| == 0 then 0 else TotalInterpreted(trace[..|trace| - 1]) + Interpreted(trace[|trace| - 1].executed)
  }

  /** The ticks services charged on top. */
  function TotalTicks(trace: seq<SegmentRun>): nat {
    if |trace| == 0 then 0 else TotalTicks(trace[..|trace| - 1]) + trace[|trace| - 1].pass.ticks
  }

  /** The n-th pass is answered as the environment answers its n-th question. */
  ghost predicate AnsweredBy(trace: seq<SegmentRun>, env: (nat, Word) -> Segment) {
    forall i :: 0 <= i < |trace| ==> trace[i].segment == env(i, trace[i].before.nextPc)
  }

  /** Where the loop stands after the passes so far. */
  function Reached(trace: seq<SegmentRun>, first: Loop): Loop {
    if |trace| == 0 then first else trace[|trace| - 1].pass.next
  }

  /** The last pass left the loop. */
  predicate Left(trace: seq<SegmentRun>) {
    |trace| > 0 && trace[|trace| - 1].pass.exit.Some?
  }

  /** The passes follow one another from `first`, and none before the last one left the loop. */
  ghost predicate Chained(trace: seq<SegmentRun>, first: Loop) {
    |trace| > 0 ==>
      var init := trace[..|trace| - 1];
      Chained(init, first) && !Left(init) && trace[|trace| - 1].before == Reached(init, first)
  }

  lemma {:induction false} ChainStarts(trace: seq<SegmentRun>, first: Loop)
    requires Chained(trace, first) && |trace| > 0
    ensures trace[0].before == first
  {
    if |trace| > 1 {
      ChainStarts(trace[..|trace| - 1], first);
    }
  }

  /** The trace ran to its end and gave this result: the exit its last pass took, or the budget at the loop's head. */
  ghost predicate EndsAs(trace: seq<SegmentRun>, first: Loop, cycles: nat, result: ExecutionResult) {
    && Chained(trace, first)
    && if Left(trace) then result == trace[|trace| - 1].pass.exit.value.0
       else
         var l := Reached(trace, first);
         l.consumed >= cycles && result == ExecutionResult(BudgetExhausted, l.nextPc, l.consumed)
  }

  /** Everything the budgets promise of a trace that has brought the loop to `l`. */
  ghost predicate Tallied(trace: seq<SegmentRun>, first: Loop, l: Loop, budget: Budget) {
    && Chained(trace, first) && l == Reached(trace, first)
    && l.boundary == first.boundary.(skipPendingOnce := l.boundary.skipPendingOnce, admitted := l.boundary.admitted)
    && l.consumed == TotalInstructions(trace) && l.dispatches <= budget.maxHostDispatches
    && l.boundary.admitted == TotalInterpreted(trace) <= first.boundary.policy.maxBlocks
  }

  lemma {:induction false} OneMorePass(trace: seq<SegmentRun>, run: SegmentRun, first: Loop, budget: Budget)
    requires Tallied(trace, first, run.before, budget) && !Left(trace)
    requires run.pass.next.consumed == run.before.consumed + Instructions(run.executed)
    requires run.pass.next.dispatches <= budget.maxHostDispatches
    requires run.pass.next.boundary == run.before.boundary.(skipPendingOnce := run.pass.next.boundary.skipPendingOnce,
                                                            admitted := run.pass.next.boundary.admitted)
    requires run.pass.next.boundary.admitted == run.before.boundary.admitted + Interpreted(run.executed)
    requires run.pass.next.boundary.admitted <= first.boundary.policy.maxBlocks
    ensures Tallied(trace + [run], first, run.pass.next, budget)
  {
    assert (trace + [run])[..|trace|] == trace;
  }

  /** The most passes a call can make. */
  function MostPasses(budget: Budget): nat {
    2 * (budget.cycles + budget.maxHostDispatches)
  }

  /** A trace that has not left the loop. */
  ghost predicate Ongoing(trace: seq<SegmentRun>, first: Loop, l: Loop, budget: Budget) {
    && Tallied(trace, first, l, budget) && !Left(trace)
    && |trace| <= l.Potential() + 1 && |trace| <= MostPasses(budget)
  }

  /** The environment answers admissibly at every pass, wherever the guest stands. */
  ghost predicate AdmissibleAlways(env: (nat, Word) -> Segment) {
    forall n: nat, pc: Word :: Admissible(env(n, pc), pc)
  }

  /** What a pass told the truth about when it left, and what it used up when it did not. */
  ghost predicate Settled(run: SegmentRun, first: Loop, budget: Budget) {
    var before, next, exit := run.before, run.pass.next, run.pass.exit;
    && next.consumed >= before.consumed && next.dispatches >= before.dispatches
    && if exit.Some? then Honest(exit.value.0, exit.value.1, StopPc(run.segment, run.walked.ended),
                                 first.boundary.returnAddress, next.consumed, next.dispatches, budget)
       else next.consumed > before.consumed || next.dispatches > before.dispatches || next.Rank() < before.Rank()
  }

  lemma {:induction false} PassSettles(run: SegmentRun, first: Loop, budget: Budget, game: bool)
    requires Genuine(run, budget, game) && run.before.dispatches <= budget.maxHostDispatches
    requires run.before.boundary.returnAddress == first.boundary.returnAddress
    ensures Settled(run, first, budget)
    ensures run.pass.next.consumed == run.before.consumed + Instructions(run.executed)
    ensures run.pass.next.dispatches <= budget.maxHostDispatches
    ensures run.pass.next.boundary ==
            run.before.boundary.(skipPendingOnce := run.pass.next.boundary.skipPendingOnce,
                                 admitted := run.walked.boundary.admitted)
    ensures run.walked.boundary.admitted <= run.before.boundary.policy.maxBlocks
    ensures run.pass.exit.None? ==> run.before.Potential() < run.pass.next.Potential()
  {
    PassProgresses(run.before, budget, run.segment, run.walked.boundary, run.walked.ended, Instructions(run.executed));
  }

  lemma {:induction false} WalkedCount(run: SegmentRun, budget: Budget, game: bool)
    requires Genuine(run, budget, game)
    ensures run.walked.boundary.admitted == run.before.boundary.admitted + Interpreted(run.executed)
  {
    WalkCountsInterpreted(run.segment.blocks, run.before.boundary, run.before.pending, 0);
    assert run.segment.blocks[..0] == [];
  }

  /** A pass put on the end of the trace. */
  lemma {:induction false} OneMoreRecorded(trace: seq<SegmentRun>, run: SegmentRun, first: Loop, budget: Budget,
                                           game: bool)
    requires AllGenuine(trace, budget, game) && AllGenuine([run], budget, game)
    requires Ongoing(trace, first, run.before, budget) && run.before.consumed < budget.cycles
    ensures AllGenuine(trace + [run], budget, game) && Settled(run, first, budget)
    ensures run.pass.next.consumed == run.before.consumed + Instructions(run.executed)
    ensures |trace + [run]| <= MostPasses(budget) && Tallied(trace + [run], first, run.pass.next, budget)
    ensures run.pass.exit.None? ==> Ongoing(trace + [run], first, run.pass.next, budget)
    ensures run.pass.exit.Some? ==> EndsAs(trace + [run], first, budget.cycles, run.pass.exit.value.0)
  {
    assert Genuine([run][0], budget, game);
    PassSettles(run, first, budget, game);
    WalkedCount(run, budget, game);
    OneMorePass(trace, run, first, budget);
  }

  /** Every pass is genuine and answered in turn, there are no more than the budgets allow, and the totals hold. */
  ghost predicate Kept(trace: seq<SegmentRun>, first: Loop, l: Loop, budget: Budget, game: bool,
                       env: (nat, Word) -> Segment) {
    && AllGenuine(trace, budget, game) && AnsweredBy(trace, env) && |trace| <= MostPasses(budget)
    && Tallied(trace, first, l, budget)
  }

  /** The passes so far have not left the loop. */
  ghost predicate Going(trace: seq<SegmentRun>, first: Loop, l: Loop, budget: Budget, game: bool,
                        env: (nat, Word) -> Segment) {
    var going := Kept(trace, first, l, budget, game, env) && Ongoing(trace, first, l, budget);
    going
  }

  /** The result tells the truth about where the trace ended and why. */
  ghost predicate Concluded(trace: seq<SegmentRun>, first: Loop, l: Loop, result: ExecutionResult, exit: CallExit,
                            stop: Word, budget: Budget) {
    && EndsAs(trace, first, budget.cycles, result) && (trace == [] ==> stop == first.nextPc)
    && Honest(result, exit, stop, first.boundary.returnAddress, l.consumed, l.dispatches, budget)
  }

  /** The loop is over. */
  ghost predicate CameOut(trace: seq<SegmentRun>, first: Loop, l: Loop, result: ExecutionResult, exit: CallExit,
                          stop: Word, budget: Budget, game: bool, env: (nat, Word) -> Segment) {
    var out := Kept(trace, first, l, budget, game, env) && Concluded(trace, first, l, result, exit, stop, budget);
    out
  }

  lemma {:induction false} OneMoreAnswer(trace: seq<SegmentRun>, run: SegmentRun, env: (nat, Word) -> Segment)
    requires AnsweredBy(trace, env) && run.segment == env(|trace|, run.before.nextPc)
    ensures AnsweredBy(trace + [run], env) && TotalTicks(trace + [run]) == TotalTicks(trace) + run.pass.ticks
  {
    assert (trace + [run])[..|trace|] == trace;
  }

  lemma {:induction false} OneMoreGoesOn(trace: seq<SegmentRun>, run: SegmentRun, first: Loop, budget: Budget,
                                         game: bool, env: (nat, Word) -> Segment)
    requires Going(trace, first, run.before, budget, game, env) && AllGenuine([run], budget, game)
    requires run.before.consumed < budget.cycles && run.segment == env(|trace|, run.before.nextPc)
    ensures run.pass.next.consumed == run.before.consumed + Instructions(run.executed)
    ensures TotalTicks(trace + [run]) == TotalTicks(trace) + run.pass.ticks && |trace| < MostPasses(budget)
    ensures match run.pass.exit
            case None => Going(trace + [run], first, run.pass.next, budget, game, env)
            case Some((result, exit)) =>
              CameOut(trace + [run], first, run.pass.next, result, exit, StopPc(run.segment, run.walked.ended), budget,
                      game, env)
  {
    OneMoreRecorded(trace, run, first, budget, game);
    OneMoreAnswer(trace, run, env);
  }

  lemma {:induction false} HeadComesOut(trace: seq<SegmentRun>, first: Loop, l: Loop, budget: Budget, game: bool,
                                        env: (nat, Word) -> Segment)
    requires Going(trace, first, l, budget, game, env) && l.consumed >= budget.cycles
    ensures CameOut(trace, first, l, ExecutionResult(BudgetExhausted, l.nextPc, l.consumed), Exhausted, l.nextPc,
                    budget, game, env)
  {
  }

  class LightrecExecutor {
    const game: bool
    const segmentClock: SegmentClockLedger
    // Guest instruction ticks, and whether the active journal withholds them.
    var clock: nat
    var withheld: bool

    constructor (game: bool, segmentClock: SegmentClockLedger)
      ensures this.game == game && this.segmentClock == segmentClock && clock == 0 && !withheld
    {
      this.game, this.segmentClock, clock, withheld := game, segmentClock, 0, false;
    }

    predicate Charges()
      reads this
    {
      game && !withheld
    }

    /** Brings the clock up to a device access: the ledger's commit, unless there is no Game or time is withheld. */
    method CommitDeviceClock(cycle: Word)
      modifies this`clock, segmentClock
      ensures Charges() ==> segmentClock.Model() == CommitThrough(old(segmentClock.Model()), cycle)
      ensures Charges() ==> clock - segmentClock.committedInstructions ==
                            old(clock) - old(segmentClock.committedInstructions)
      ensures !Charges() ==> clock == old(clock) && segmentClock.Model() == old(segmentClock.Model())
    {
      if !game || withheld {
        return;
      }
      var instructions := segmentClock.Commit(cycle);
      clock := clock + instructions;
    }

    /** Between device accesses the ledger's instructions and carry add up to the counter it last saw. */
    ghost predicate LedgerSteady(limit: nat)
      reads this, segmentClock
    {
      && 2 * segmentClock.committedInstructions + segmentClock.pendingCycles == segmentClock.chargedThroughCycles
      && segmentClock.pendingCycles < 2
      && segmentClock.chargedThroughCycles <= limit
    }

    /** k blocks into a segment that began at `start` the clock is what the ledger committed, and every access so far
        has found it in time. */
    ghost predicate Keeps(blocks: seq<Block>, k: nat, start: nat, seen: seq<nat>)
      requires k <= |blocks|
      reads this, segmentClock
    {
      var keeps :=
        && LedgerSteady(2 * Instructions(blocks[..k])) && NotPassed(segmentClock.chargedThroughCycles, blocks, k)
        && (if Charges() then
              clock == start + segmentClock.committedInstructions && SeenInTime(seen, Accesses(blocks[..k]), start)
            else clock == start && segmentClock.committedInstructions == 0);
      keeps
    }

    /** One block's device accesses, each committing the time before it: `seen` is the clock they find. */
    method ExecuteBlock(blocks: seq<Block>, k: nat, ghost start: nat, ghost before: seq<nat>)
      returns (ghost seen: seq<nat>)
      requires k < |blocks| && CounterSteady(blocks) && Keeps(blocks, k, start, before)
      modifies this`clock, segmentClock
      ensures Keeps(blocks, k + 1, start, seen)
    {
      var block := blocks[k];
      ghost var more := [];
      assert blocks[..k + 1][..k] == blocks[..k];
      var i := 0;
      while i < |block.accesses|
        invariant 0 <= i <= |block.accesses|
        invariant LedgerSteady(2 * Instructions(blocks[..k + 1]))
        invariant NotPassed(segmentClock.chargedThroughCycles, blocks, k + 1)
        invariant forall j :: i <= j < |block.accesses| ==> segmentClock.chargedThroughCycles <= block.accesses[j]
        invariant if Charges() then
                    clock == start + segmentClock.committedInstructions && SeenInTime(more, block.accesses[..i], start)
                  else clock == start && segmentClock.committedInstructions == 0
      {
        CommitDeviceClock(block.accesses[i]);
        more := more + [clock];
        i := i + 1;
      }
      seen := before + more;
      assert block.accesses[..|block.accesses|] == block.accesses;
      MoreAccesses(blocks, k);
      if Charges() {
        SeenJoins(before, Accesses(blocks[..k]), more, block.accesses, start);
      }
    }

    /** One lightrec_execute: blocks run until a callback stops them or Lightrec ends the segment. */
    method RunSegment(s: Segment, start: Boundary, pending: Pending)
      returns (boundary: Boundary, ended: Ended, instructions: nat, ghost entered: nat, ghost seen: seq<nat>)
      requires CounterSteady(s.blocks)
      modifies this`clock, segmentClock
      ensures Walk(s.blocks, start, pending, 0) == Walked(boundary, ended, entered)
      ensures instructions == Instructions(s.blocks[..entered])
      ensures segmentClock.committedInstructions <= instructions
      ensures clock == old(clock) + if Charges() then segmentClock.committedInstructions else 0
      ensures !Charges() ==> segmentClock.committedInstructions == 0
      ensures Charges() ==> SeenInTime(seen, Accesses(s.blocks[..entered]), old(clock))
    {
      segmentClock.BeginSegment();
      boundary, instructions, ended, entered, seen := start, 0, RanOut, 0, [];
      var raised := pending;
      var k := 0;
      while k < |s.blocks|
        invariant 0 <= k <= |s.blocks| && entered == k && ended == RanOut
        invariant Walk(s.blocks, start, pending, 0) == Walk(s.blocks, boundary, raised, k)
        invariant instructions == Instructions(s.blocks[..k])
        invariant Keeps(s.blocks, k, old(clock), seen)
      {
        var block := s.blocks[k];
        assert s.blocks[..k + 1][..k] == s.blocks[..k];
        var (after, how) := EnterBlock(boundary, block, raised);
        boundary := after;
        if !how.RanOut? {
          ended := how;
          return;
        }
        seen := ExecuteBlock(s.blocks, k, old(clock), seen);
        instructions := instructions + block.instructions;
        raised := block.pendingAfter;
        k, entered := k + 1, entered + 1;
      }
    }

    /** Charges a count of any size through a 32-bit parameter. */
    method AccountExecuted(instructions: nat)
      modifies this`clock
      ensures clock == old(clock) + if Charges() then instructions else 0
    {
      var left := instructions;
      while left != 0
        invariant 0 <= left <= instructions
        invariant clock == old(clock) + if Charges() then instructions - left else 0
      {
        var chunk := Min(left, 0xFFFF_FFFF);
        if !withheld && game {
          clock := clock + chunk;
        }
        left := left - chunk;
      }
    }

    /** A segment and the end-of-segment account of what its device accesses did not charge. */
    method RunAndAccount(s: Segment, ghost before: Loop, start: Boundary, pending: Pending)
      returns (boundary: Boundary, ended: Ended, instructions: nat, ghost entered: nat, ghost seen: seq<nat>)
      requires Admissible(s, before.nextPc) && start.admitted <= start.policy.maxBlocks
      requires before.boundary == start && before.pending == pending
      modifies this`clock, segmentClock
      ensures Walk(s.blocks, start, pending, 0) == Walked(boundary, ended, entered)
      ensures instructions == Instructions(s.blocks[..entered])
      ensures Ran(before, s, boundary, ended, instructions)
      ensures clock == old(clock) + if Charges() then instructions else 0
      ensures Charges() ==> SeenInTime(seen, Accesses(s.blocks[..entered]), old(clock))
    {
      WalkRuns(before, s);
      boundary, ended, instructions, entered, seen := RunSegment(s, start, pending);
      AccountExecuted(if instructions > segmentClock.committedInstructions
                      then instructions - segmentClock.committedInstructions else 0);
    }

    /** One pass: a segment within its budget, then what the loop makes of how it ended. */
    method RunPass(env: (nat, Word) -> Segment, n: nat, l: Loop, budget: Budget)
      returns (pass: Pass, ghost run: SegmentRun)
      requires AdmissibleAlways(env) && l.consumed < budget.cycles
      requires l.boundary.admitted <= l.boundary.policy.maxBlocks
      modifies this`clock, segmentClock
      ensures AllGenuine([run], budget, game) && run.before == l && pass == run.pass
      ensures run.segment == env(n, l.nextPc)
      ensures clock == old(clock) + (if Charges() then Instructions(run.executed) else 0) + pass.ticks
    {
      var s := env(n, l.nextPc);
      var segmentBudget := SegmentBudget(budget.cycles - l.consumed, game, s);
      var target := TargetCycle(segmentBudget);
      ghost var entered, seen;
      var boundary, ended, instructions;
      boundary, ended, instructions, entered, seen := RunAndAccount(s, l, l.boundary, l.pending);
      pass := Proceed(l, budget, s, boundary, ended, instructions);
      clock := clock + pass.ticks;
      run := SegmentRun(l, s, segmentBudget, target, Walked(boundary, ended, entered), s.blocks[..entered], pass);
    }

    method RunPasses(first: Loop, budget: Budget, env: (nat, Word) -> Segment)
      returns (result: ExecutionResult, exit: CallExit, l: Loop, ghost stop: Word, ghost trace: seq<SegmentRun>)
      requires AdmissibleAlways(env)
      requires first.consumed == 0 && first.dispatches == 0 && first.boundary.admitted == 0
      modifies this`clock, segmentClock
      ensures CameOut(trace, first, l, result, exit, stop, budget, game, env)
      ensures clock == old(clock) + (if Charges() then l.consumed else 0) + TotalTicks(trace)
    {
      l, trace := first, [];
      var n := 0;
      while l.consumed < budget.cycles
        invariant n == |trace| && Going(trace, first, l, budget, game, env)
        invariant clock == old(clock) + (if Charges() then l.consumed else 0) + TotalTicks(trace)
        decreases MostPasses(budget) - |trace|
      {
        var pass, run := RunPass(env, n, l, budget);
        n := n + 1;
        OneMoreGoesOn(trace, run, first, budget, game, env);
        trace, l := trace + [run], pass.next;
        if pass.exit.Some? {
          stop := StopPc(run.segment, run.walked.ended);
          return pass.exit.value.0, pass.exit.value.1, l, stop, trace;
        }
      }
      stop := l.nextPc;
      HeadComesOut(trace, first, l, budget, game, env);
      result, exit := ExecutionResult(BudgetExhausted, l.nextPc, l.consumed), Exhausted;
    }

    /** The loop. Every segment is given a positive budget that passes no deadline, and the target for it; the host
        dispatches and admitted fallback blocks stay within their limits; the clock moves by exactly the instructions
        executed plus what nested services charged; and the number of segments is bounded by the budgets alone. */
    method ExecuteWithBoundary(guestAddress: Word, returnAddress: Option<Word>, dispatchHostServices: bool,
                               budget: Budget, initialized: bool, policy: FallbackPolicy, pendingAtEntry: Pending,
                               env: (nat, Word) -> Segment)
      returns (result: ExecutionResult, exit: CallExit, l: Loop, ghost stop: Word, ghost trace: seq<SegmentRun>)
      requires AdmissibleAlways(env)
      modifies this`clock, segmentClock
      ensures var first := Entered(guestAddress, returnAddress, dispatchHostServices, policy, pendingAtEntry);
              && AllGenuine(trace, budget, game) && Tallied(trace, first, l, budget)
              && (initialized && policy.valid ==> EndsAs(trace, first, budget.cycles, result))
      ensures Honest(result, exit, stop, returnAddress, l.consumed, l.dispatches, budget)
      ensures if trace == [] then stop == guestAddress else trace[0].before.nextPc == guestAddress
      ensures clock == old(clock) + (if Charges() then l.consumed else 0) + TotalTicks(trace)
      ensures |trace| <= MostPasses(budget) && AnsweredBy(trace, env)
      ensures !initialized || !policy.valid ==> exit == Faulted && trace == []
    {
      l := Entered(guestAddress, returnAddress, dispatchHostServices, policy, pendingAtEntry);
      if !initialized || !policy.valid {
        trace, stop := [], guestAddress;
        result, exit := ExecutionResult(Fault, guestAddress, 0), Faulted;
        return;
      }
      ghost var first := l;
      result, exit, l, stop, trace := RunPasses(l, budget, env);
      if trace != [] {
        ChainStarts(trace, first);
      }
    }
  }
}
