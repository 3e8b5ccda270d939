/** The executor's loop and the turn of a deterministic guest are one thing: however the loop's segments are cut by
    deadlines, and however many passes go to pending work, it ends where one uninterrupted turn ends. */
module ExecutorTurns {
  import opened GuestTypes
  import opened SegmentClocks
  import opened LightrecExecutors
  import opened ResumableCalls

  /** A host service that returns is charged nothing: the loop goes on from one without taking its cycles. */
  ghost predicate Uncharged<M(!new)>(g: Guest<M>) {
    forall s :: g.service(s) && g.block(s).exit.None? ==> g.block(s).cycles == 0
  }

  // ---- what a pass shows of the guest ----------------------------------------------------------------

  /** Each boundary Lightrec comes to is the guest's next one, and each block it executes costs what the step costs. */
  ghost predicate Shows<M>(g: Guest<M>, x: GuestState<M>, run: SegmentRun) {
    var blocks := run.segment.blocks;
    && run.walked.entered <= |blocks|
    && (forall k :: 0 <= k <= run.walked.entered && k < |blocks| ==>
          blocks[k].pc == Iterate(g, x, k).regs.pc && blocks[k].hostService == g.service(Iterate(g, x, k)))
    && (forall k :: 0 <= k < run.walked.entered ==> blocks[k].instructions == g.block(Iterate(g, x, k)).cycles)
  }

  /** Lightrec tests its target before it asks the boundary callback. */
  ghost predicate InTime(run: SegmentRun) {
    forall k :: 1 <= k <= run.walked.entered && k < |run.segment.blocks| ==>
      CYCLES_PER_INSTRUCTION * Instructions(run.segment.blocks[..k]) < run.target
  }

  ghost predicate AsksNothing<M>(g: Guest<M>, x: GuestState<M>, n: nat) {
    forall k :: 0 <= k < n ==> g.block(Iterate(g, x, k)).exit.None?
  }

  /** A segment's last block asked for an exit at pc: by a request, a fault or a break. */
  predicate Asks(s: Segment, reason: ExitReason, pc: Word) {
    match s.request
    case Some(r) => ObserverFlag !in s.flags && r.reason == reason && r.cycles == 0 &&
                    (if r.guestPc == 0 then s.exitPc else r.guestPc) == pc
    case None =>
      || (s.exitPc == pc && reason == Fault && (ObserverFlag in s.flags || FaultFlag in s.flags))
      || (PlusFour(s.exitPc) == pc && reason == HostService && s.flags == {BreakFlag})
  }

  /** A segment ended with nothing asked for and the guest at pc: at a deadline or the budget, at a syscall that was
      handled, or at an interrupt check whose service left the guest alone. */
  predicate GoesOnAt(s: Segment, pc: Word) {
    && s.request.None?
    && (|| (s.flags == {} && s.exitPc == pc)
        || (s.flags == {SyscallFlag} && s.syscallHandled && PlusFour(s.exitPc) == pc)
        || (s.flags == {InterruptFlag} && s.service.request.None? && s.service.pc == pc))
  }

  /** The result of a host service that did what the guest's step does. */
  function ServiceResult<M>(step: BlockStep<M>): ExecutionResult {
    ExecutionResult(if step.exit.Some? then step.exit.value else GuestReturn, step.after.regs.pc, step.cycles)
  }

  /** The loop dispatched the host service it stopped at. */
  predicate Dispatches(run: SegmentRun, budget: Budget) {
    && run.walked.ended.StoppedAt? && run.walked.ended.reason == AtHostService
    && run.before.dispatches < budget.maxHostDispatches
  }

  /** How many of the guest's steps a pass made. */
  function StepsOf(run: SegmentRun, budget: Budget): nat {
    run.walked.entered + if Dispatches(run, budget) then 1 else 0
  }

  /** How the segment ended, with the guest at `x` when it started. */
  ghost predicate EndsLike<M>(g: Guest<M>, x: GuestState<M>, run: SegmentRun, budget: Budget) {
    var s, n := run.segment, run.walked.entered;
    match run.walked.ended
    case FallbackRefused(_) => false
    case StoppedAt(reason, _) =>
      && s.flags == {} && s.request.None? && AsksNothing(g, x, n)
      && (Dispatches(run, budget) ==> s.service.result == ServiceResult(g.block(Iterate(g, x, n))))
      && (reason == AtPendingWork ==> s.service.request.None? && s.service.pc == Iterate(g, x, n).regs.pc)
    case RanOut =>
      && n > 0 && AsksNothing(g, x, n - 1)
      && var step := g.block(Iterate(g, x, n - 1));
         if step.exit.Some? then Asks(s, step.exit.value, step.after.regs.pc) else GoesOnAt(s, step.after.regs.pc)
  }

  /** The environment's answers in one pass are those of the guest, which stands at x. Deadlines, pending work, the
      fallback reasons, device accesses and the ticks a service charges are arbitrary; a pending-work service leaves the
      guest where it was, and no block is refused as a fallback. */
  ghost predicate Plays<M>(g: Guest<M>, x: GuestState<M>, run: SegmentRun, budget: Budget) {
    Shows(g, x, run) && InTime(run) && EndsLike(g, x, run, budget)
  }

  // ---- the walk --------------------------------------------------------------------------------------

  /** What the boundary callback let through, and why it stopped. */
  lemma {:induction false} WalkEnters(blocks: seq<Block>, b: Boundary, pending: Pending, k: nat)
    requires k <= |blocks|
    ensures var w := Walk(blocks, b, pending, k);
            && (forall i :: k <= i < w.entered ==>
                  b.returnAddress != Some(blocks[i].pc) && !(b.dispatchHostServices && blocks[i].hostService))
            && (w.ended.StoppedAt? ==>
                  && w.ended.pc == blocks[w.entered].pc && w.ended.reason != NoReason
                  && (w.ended.reason == AtReturn <==> b.returnAddress == Some(w.ended.pc))
                  && (w.ended.reason == AtHostService ==> blocks[w.entered].hostService))
    decreases |blocks| - k
  {
    if k < |blocks| {
      var (after, how) := EnterBlock(b, blocks[k], pending);
      if how.RanOut? {
        WalkEnters(blocks, after, blocks[k].pendingAfter, k + 1);
      }
    }
  }

  lemma {:induction false} CostsAdd<M>(g: Guest<M>, x: GuestState<M>, run: SegmentRun, n: nat)
    requires Shows(g, x, run) && n <= run.walked.entered
    ensures CyclesOf(g, x, n) == Instructions(run.segment.blocks[..n])
  {
    if n > 0 {
      CostsAdd(g, x, run, n - 1);
      assert run.segment.blocks[..n][..n - 1] == run.segment.blocks[..n - 1];
    }
  }

  /** The first n steps are guest blocks short of the return address that ask for nothing. */
  ghost predicate Plain<M>(g: Guest<M>, x: GuestState<M>, returnPc: Word, n: nat) {
    forall k :: 0 <= k < n ==>
      var y := Iterate(g, x, k);
      y.regs.pc != returnPc && !g.service(y) && g.block(y).exit.None?
  }

  /** A turn passes over such steps while its cycles last. */
  lemma {:induction false} TurnSkips<M(!new)>(g: Guest<M>, x: GuestState<M>, returnPc: Word, budget: Budget, n: nat)
    requires Costly(g) && Plain(g, x, returnPc, n) && CyclesOf(g, x, n) < budget.cycles
    ensures RunTurn(g, x, returnPc, budget) ==
            Later(RunTurn(g, Iterate(g, x, n), returnPc,
                          Budget(budget.cycles - CyclesOf(g, x, n), budget.maxHostDispatches)), CyclesOf(g, x, n))
  {
    if n == 0 {
      assert Budget(budget.cycles - 0, budget.maxHostDispatches) == budget;
    } else {
      var y, spent := Iterate(g, x, n - 1), CyclesOf(g, x, n - 1);
      TurnSkips(g, x, returnPc, budget, n - 1);
      TurnAfter(g, y, returnPc, Budget(budget.cycles - spent, budget.maxHostDispatches), g.block(y), false);
    }
  }

  // ---- one pass --------------------------------------------------------------------------------------

  /** What is left of the call's budget as a pass starts. */
  function Remaining(l: Loop, budget: Budget): Budget
    requires l.consumed <= budget.cycles && l.dispatches <= budget.maxHostDispatches
  {
    Budget(budget.cycles - l.consumed, budget.maxHostDispatches - l.dispatches)
  }

  /** The call dispatches host services and returns at returnPc. */
  ghost predicate Bounded(l: Loop, returnPc: Word, budget: Budget) {
    && l.boundary.returnAddress == Some(returnPc) && l.boundary.dispatchHostServices
    && l.dispatches <= budget.maxHostDispatches
  }

  /** Where the pass leaves the turn that was still to run from x: over, or with this much of it behind. */
  ghost predicate PassIsStretch<M(!new)>(g: Guest<M>, x: GuestState<M>, returnPc: Word, run: SegmentRun, budget: Budget)
    requires Costly(g) && run.before.consumed < budget.cycles && run.before.dispatches <= budget.maxHostDispatches
  {
    var turn := RunTurn(g, x, returnPc, Remaining(run.before, budget));
    var after, next, base := Iterate(g, x, StepsOf(run, budget)), run.pass.next, run.before.consumed;
    if run.pass.exit.Some? then
      var r := run.pass.exit.value.0;
      r.guestPc == after.regs.pc && r.cycles >= base && turn == TurnEnd(after, r.reason, r.cycles - base)
    else
      && next.nextPc == after.regs.pc && next.consumed >= base && next.dispatches <= budget.maxHostDispatches
      && if next.consumed >= budget.cycles then turn == TurnEnd(after, BudgetExhausted, next.consumed - base)
         else turn == Later(RunTurn(g, after, returnPc, Remaining(next, budget)), next.consumed - base)
  }

  /** What every boundary the segment came to tells of the guest. */
  lemma {:induction false} Entrances<M>(g: Guest<M>, x: GuestState<M>, returnPc: Word, run: SegmentRun, budget: Budget,
                                        game: bool, n: nat)
    requires Genuine(run, budget, game) && Bounded(run.before, returnPc, budget) && Plays(g, x, run, budget)
    requires n <= run.walked.entered && n < |run.segment.blocks| && AsksNothing(g, x, n)
    ensures Plain(g, x, returnPc, n)
    ensures CyclesOf(g, x, n) == Instructions(run.segment.blocks[..n]) < run.budget <=
            Remaining(run.before, budget).cycles
  {
    WalkEnters(run.segment.blocks, run.before.boundary, run.before.pending, 0);
    CostsAdd(g, x, run, n);
  }

  /** What the loop makes of a segment a callback stopped with nothing asked for. */
  ghost predicate StopDecided(run: SegmentRun, budget: Budget)
    requires run.walked.ended.StoppedAt?
  {
    var reason, pc, service := run.walked.ended.reason, run.walked.ended.pc, run.segment.service;
    var consumed, next := run.before.consumed + Instructions(run.executed), run.pass.next;
    && next.consumed == consumed
    && next.dispatches == run.before.dispatches + (if Dispatches(run, budget) then 1 else 0)
    && match reason
       case AtReturn => run.pass.exit == Some((ExecutionResult(GuestReturn, pc, consumed), ReachedReturn))
       case AtHostService =>
         if Dispatches(run, budget) then
           && next.nextPc == service.result.guestPc
           && run.pass.exit == if service.result.Returned() then None
                               else Some((service.result.(cycles := service.result.cycles + consumed), ServiceExit))
         else run.pass.exit == Some((ExecutionResult(BudgetExhausted, pc, consumed), Exhausted))
       case AtPendingWork => service.request.None? ==> run.pass.exit.None? && next.nextPc == service.pc
       case NoReason => true
  }

  lemma {:induction false} StopDecides(run: SegmentRun, budget: Budget, game: bool)
    requires Genuine(run, budget, game) && run.walked.ended.StoppedAt?
    requires run.segment.flags == {} && run.segment.request.None? && run.before.boundary.dispatchHostServices
    ensures StopDecided(run, budget)
  {
  }

  /** What it makes of one that ran to its end. */
  ghost predicate EndDecided(run: SegmentRun, budget: Budget, exit: Option<ExitReason>, pc: Word) {
    var consumed, next := run.before.consumed + Instructions(run.executed), run.pass.next;
    && next.consumed == consumed && next.dispatches == run.before.dispatches
    && match exit
       case Some(reason) => run.pass.exit.Some? && run.pass.exit.value.0 == ExecutionResult(reason, pc, consumed)
       case None =>
         if run.pass.exit.Some? then
           consumed >= budget.cycles && run.pass.exit.value.0 == ExecutionResult(BudgetExhausted, pc, consumed)
         else next.nextPc == pc
  }

  lemma {:induction false} EndDecides(run: SegmentRun, budget: Budget, game: bool, exit: Option<ExitReason>, pc: Word)
    requires Genuine(run, budget, game) && run.walked.ended.RanOut? && run.before.boundary.dispatchHostServices
    requires if exit.Some? then Asks(run.segment, exit.value, pc) else GoesOnAt(run.segment, pc)
    ensures EndDecided(run, budget, exit, pc)
  {
  }

  /** The guest's side of a stop: where the walk stopped is a point of its run, with cycles left. */
  ghost predicate StopsAlong<M>(g: Guest<M>, x: GuestState<M>, returnPc: Word, run: SegmentRun, budget: Budget) {
    var n := run.walked.entered;
    var y := Iterate(g, x, n);
    && Plain(g, x, returnPc, n) && CyclesOf(g, x, n) == Instructions(run.executed)
    && run.before.consumed + CyclesOf(g, x, n) < budget.cycles
    && run.walked.ended.StoppedAt? && run.walked.ended.pc == y.regs.pc && run.walked.ended.reason != NoReason
    && (run.walked.ended.reason == AtReturn <==> y.regs.pc == returnPc)
    && (run.walked.ended.reason == AtHostService ==> g.service(y))
    && (Dispatches(run, budget) ==> run.segment.service.result == ServiceResult(g.block(y)))
    && (run.walked.ended.reason == AtPendingWork ==>
          run.segment.service.request.None? && run.segment.service.pc == y.regs.pc)
  }

  lemma {:induction false} DispatchIsStretch<M(!new)>(g: Guest<M>, x: GuestState<M>, returnPc: Word, run: SegmentRun,
                                                      budget: Budget)
    requires Sincere(g) && Uncharged(g) && Bounded(run.before, returnPc, budget) && Dispatches(run, budget)
    requires StopsAlong(g, x, returnPc, run, budget) && StopDecided(run, budget)
    ensures PassIsStretch(g, x, returnPc, run, budget)
  {
    var n, left := run.walked.entered, Remaining(run.before, budget);
    var y, spent := Iterate(g, x, n), CyclesOf(g, x, n);
    var there := Budget(left.cycles - spent, left.maxHostDispatches);
    TurnSkips(g, x, returnPc, left, n);
    TurnAfter(g, y, returnPc, there, g.block(y), true);
    if g.block(y).exit.None? {
      assert Spent(there, 0, true) == Remaining(run.pass.next, budget);
    }
  }

  lemma {:induction false} StopIsStretch<M(!new)>(g: Guest<M>, x: GuestState<M>, returnPc: Word, run: SegmentRun,
                                                  budget: Budget)
    requires Sincere(g) && Uncharged(g) && Bounded(run.before, returnPc, budget) && !Dispatches(run, budget)
    requires StopsAlong(g, x, returnPc, run, budget) && StopDecided(run, budget)
    ensures PassIsStretch(g, x, returnPc, run, budget)
  {
    var n, left := run.walked.entered, Remaining(run.before, budget);
    var y, there := Iterate(g, x, n), Budget(left.cycles - CyclesOf(g, x, n), left.maxHostDispatches);
    TurnSkips(g, x, returnPc, left, n);
    match run.walked.ended.reason
    case AtReturn => assert RunTurn(g, y, returnPc, there) == TurnEnd(y, GuestReturn, 0);
    case AtHostService => assert RunTurn(g, y, returnPc, there) == TurnEnd(y, BudgetExhausted, 0);
    case AtPendingWork => assert there == Remaining(run.pass.next, budget);
    case NoReason => assert false;
  }

  lemma {:induction false} StoppedPass<M(!new)>(g: Guest<M>, x: GuestState<M>, returnPc: Word, run: SegmentRun,
                                                budget: Budget, game: bool)
    requires Sincere(g) && Uncharged(g) && Genuine(run, budget, game) && Bounded(run.before, returnPc, budget)
    requires Plays(g, x, run, budget) && run.walked.ended.StoppedAt?
    ensures PassIsStretch(g, x, returnPc, run, budget)
  {
    Entrances(g, x, returnPc, run, budget, game, run.walked.entered);
    WalkEnters(run.segment.blocks, run.before.boundary, run.before.pending, 0);
    StopDecides(run, budget, game);
    if Dispatches(run, budget) {
      DispatchIsStretch(g, x, returnPc, run, budget);
    } else {
      StopIsStretch(g, x, returnPc, run, budget);
    }
  }

  lemma {:induction false} EndIsStretch<M(!new)>(g: Guest<M>, x: GuestState<M>, returnPc: Word, run: SegmentRun,
                                                 budget: Budget, n: nat)
    requires Sincere(g) && Bounded(run.before, returnPc, budget)
    requires Plain(g, x, returnPc, n) && run.before.consumed + CyclesOf(g, x, n) < budget.cycles
    requires run.walked.entered == n + 1 && run.walked.ended.RanOut?
    requires CyclesOf(g, x, n + 1) == Instructions(run.executed)
    requires Iterate(g, x, n).regs.pc != returnPc && !g.service(Iterate(g, x, n))
    requires EndDecided(run, budget, g.block(Iterate(g, x, n)).exit, Iterate(g, x, n + 1).regs.pc)
    ensures PassIsStretch(g, x, returnPc, run, budget)
  {
    var left := Remaining(run.before, budget);
    var y, spent := Iterate(g, x, n), CyclesOf(g, x, n);
    var there := Budget(left.cycles - spent, left.maxHostDispatches);
    TurnSkips(g, x, returnPc, left, n);
    TurnAfter(g, y, returnPc, there, g.block(y), false);
    if g.block(y).exit.None? && g.block(y).cycles < there.cycles {
      assert Spent(there, g.block(y).cycles, false) == Remaining(run.pass.next, budget);
    }
  }

  lemma {:induction false} RanOutPass<M(!new)>(g: Guest<M>, x: GuestState<M>, returnPc: Word, run: SegmentRun,
                                               budget: Budget, game: bool)
    requires Sincere(g) && Genuine(run, budget, game) && Bounded(run.before, returnPc, budget)
    requires Plays(g, x, run, budget) && run.walked.ended.RanOut?
    ensures PassIsStretch(g, x, returnPc, run, budget)
  {
    var n := run.walked.entered - 1;
    var step := g.block(Iterate(g, x, n));
    Entrances(g, x, returnPc, run, budget, game, n);
    WalkEnters(run.segment.blocks, run.before.boundary, run.before.pending, 0);
    CostsAdd(g, x, run, n + 1);
    EndDecides(run, budget, game, step.exit, step.after.regs.pc);
    EndIsStretch(g, x, returnPc, run, budget, n);
  }

  /** One block from x, answered as the guest does and cut off by a deadline straight after it; `entered` tells whether
      the boundary callback lets it be executed. */
  ghost function Answer<M>(g: Guest<M>, x: GuestState<M>, entered: bool): Segment {
    var step, quiet := g.block(x), Pending(false, false);
    var block := Block(x.regs.pc, g.service(x), None, if g.service(x) then 1 else step.cycles, [], quiet);
    Segment(1, Some(1), [block], {}, true, step.after.regs.pc, quiet,
            if entered && step.exit.Some? then Some(ExecutionResult(step.exit.value, step.after.regs.pc, 0)) else None,
            Service(ServiceResult(step), 0, quiet, x.regs.pc, None))
  }

  ghost predicate StopsAtOnce<M>(g: Guest<M>, x: GuestState<M>, l: Loop) {
    l.boundary.returnAddress == Some(x.regs.pc) || l.Rank() == 1 || g.service(x)
  }

  lemma {:induction false} AnswerWalks<M>(g: Guest<M>, x: GuestState<M>, l: Loop) returns (s: Segment, walked: Walked)
    requires l.boundary.dispatchHostServices && l.boundary.admitted <= l.boundary.policy.maxBlocks
    requires !g.service(x) ==> g.block(x).cycles >= 1
    ensures s == Answer(g, x, !StopsAtOnce(g, x, l)) && walked == Walk(s.blocks, l.boundary, l.pending, 0)
    ensures if StopsAtOnce(g, x, l) then walked.ended.StoppedAt? && walked.entered == 0
            else walked.ended.RanOut? && walked.entered == 1
    ensures Ran(l, s, walked.boundary, walked.ended, Instructions(s.blocks[..walked.entered]))
    ensures Admissible(s, x.regs.pc)
  {
    s := Answer(g, x, !StopsAtOnce(g, x, l));
    walked := Walk(s.blocks, l.boundary, l.pending, 0);
    EnterBlockKeepsLimits(l.boundary, s.blocks[0], l.pending);
    assert s.blocks[..1] == s.blocks && s.blocks[..0] == [];
    assert Instructions(s.blocks[..1]) == s.blocks[0].instructions;
  }

  lemma {:induction false} AnswerPlays<M>(g: Guest<M>, x: GuestState<M>, run: SegmentRun, budget: Budget)
    requires run.segment == Answer(g, x, !StopsAtOnce(g, x, run.before))
    requires if StopsAtOnce(g, x, run.before) then run.walked.ended.StoppedAt? && run.walked.entered == 0
             else run.walked.ended.RanOut? && run.walked.entered == 1
    ensures Plays(g, x, run, budget)
  {
    OneStep(g, x);
  }

  /** Wherever the guest and the loop stand, there is such a pass: one the executor can make that plays the guest. */
  lemma {:induction false} EveryPassCanPlay<M>(g: Guest<M>, x: GuestState<M>, l: Loop, budget: Budget, game: bool)
    returns (run: SegmentRun)
    requires l.consumed < budget.cycles && l.boundary.dispatchHostServices
    requires l.boundary.admitted <= l.boundary.policy.maxBlocks
    requires !g.service(x) ==> g.block(x).cycles >= 1
    ensures run.before == l && Admissible(run.segment, x.regs.pc)
    ensures Genuine(run, budget, game) && Plays(g, x, run, budget)
  {
    var s, walked := AnswerWalks(g, x, l);
    var left := SegmentBudget(budget.cycles - l.consumed, game, s);
    var executed := s.blocks[..walked.entered];
    run := SegmentRun(l, s, left, TargetCycle(left), walked, executed,
                      Proceed(l, budget, s, walked.boundary, walked.ended, Instructions(executed)));
    AnswerPlays(g, x, run, budget);
  }

  // ---- the whole loop --------------------------------------------------------------------------------

  function TotalSteps(trace: seq<SegmentRun>, budget: Budget): nat {
    if |trace| == 0 then 0 else TotalSteps(trace[..|trace| - 1], budget) + StepsOf(trace[|trace| - 1], budget)
  }

  /** Every pass answers as the guest does from where the passes before it brought it. */
  ghost predicate PlaysAll<M>(g: Guest<M>, s: GuestState<M>, trace: seq<SegmentRun>, budget: Budget) {
    |trace| > 0 ==>
      var init := trace[..|trace| - 1];
      && PlaysAll(g, s, init, budget)
      && Plays(g, Iterate(g, s, TotalSteps(init, budget)), trace[|trace| - 1], budget)
  }

  /** The loop stands at `l` and the guest at x, this much of the whole turn behind them. */
  ghost predicate OnTheTurn<M(!new)>(g: Guest<M>, s: GuestState<M>, returnPc: Word, budget: Budget, l: Loop,
                                     x: GuestState<M>)
    requires Costly(g)
  {
    && Bounded(l, returnPc, budget) && l.nextPc == x.regs.pc
    && if l.consumed >= budget.cycles then
         RunTurn(g, s, returnPc, budget) == TurnEnd(x, BudgetExhausted, l.consumed)
       else
         RunTurn(g, s, returnPc, budget) == Later(RunTurn(g, x, returnPc, Remaining(l, budget)), l.consumed)
  }

  lemma {:induction false} AnyPass<M(!new)>(g: Guest<M>, x: GuestState<M>, returnPc: Word, run: SegmentRun,
                                            budget: Budget, game: bool)
    requires Sincere(g) && Uncharged(g) && AllGenuine([run], budget, game) && Bounded(run.before, returnPc, budget)
    requires Plays(g, x, run, budget)
    ensures run.before.consumed < budget.cycles && PassIsStretch(g, x, returnPc, run, budget)
    ensures run.pass.exit.None? ==> Bounded(run.pass.next, returnPc, budget)
  {
    assert Genuine([run][0], budget, game);
    if run.walked.ended.StoppedAt? {
      StoppedPass(g, x, returnPc, run, budget, game);
    } else {
      RanOutPass(g, x, returnPc, run, budget, game);
    }
    PassSettles(run, run.before, budget, game);
  }

  lemma {:induction false} PassStaysOnTheTurn<M(!new)>(g: Guest<M>, s: GuestState<M>, returnPc: Word, budget: Budget,
      game: bool, x: GuestState<M>, run: SegmentRun)
    requires Sincere(g) && Uncharged(g) && AllGenuine([run], budget, game) && Plays(g, x, run, budget)
    requires OnTheTurn(g, s, returnPc, budget, run.before, x)
    ensures StillOnTheTurn(g, s, returnPc, budget, run, Iterate(g, x, StepsOf(run, budget)))
  {
    AnyPass(g, x, returnPc, run, budget, game);
  }

  /** After the pass the turn is over with the pass's exit, or the loop is still on it. */
  ghost predicate StillOnTheTurn<M(!new)>(g: Guest<M>, s: GuestState<M>, returnPc: Word, budget: Budget,
                                          run: SegmentRun, after: GuestState<M>)
    requires Costly(g)
  {
    match run.pass.exit
    case Some((r, _)) =>
      r.guestPc == after.regs.pc && RunTurn(g, s, returnPc, budget) == TurnEnd(after, r.reason, r.cycles)
    case None => OnTheTurn(g, s, returnPc, budget, run.pass.next, after)
  }

  lemma {:induction false} LastPass<M(!new)>(g: Guest<M>, s: GuestState<M>, returnPc: Word, budget: Budget,
      game: bool, trace: seq<SegmentRun>, x: GuestState<M>)
    requires Sincere(g) && Uncharged(g) && |trace| > 0
    requires AllGenuine(trace, budget, game) && PlaysAll(g, s, trace, budget)
    requires x == Iterate(g, s, TotalSteps(trace[..|trace| - 1], budget))
    requires OnTheTurn(g, s, returnPc, budget, trace[|trace| - 1].before, x)
    ensures StillOnTheTurn(g, s, returnPc, budget, trace[|trace| - 1], Iterate(g, s, TotalSteps(trace, budget)))
  {
    PartsAreGenuine(trace, budget, game);
    StepsJoin(g, s, trace, budget, x);
    PassStaysOnTheTurn(g, s, returnPc, budget, game, x, trace[|trace| - 1]);
  }

  lemma {:induction false} StepsJoin<M>(g: Guest<M>, s: GuestState<M>, trace: seq<SegmentRun>, budget: Budget,
                                        x: GuestState<M>)
    requires |trace| > 0 && PlaysAll(g, s, trace, budget)
    requires x == Iterate(g, s, TotalSteps(trace[..|trace| - 1], budget))
    ensures Plays(g, x, trace[|trace| - 1], budget)
    ensures Iterate(g, x, StepsOf(trace[|trace| - 1], budget)) == Iterate(g, s, TotalSteps(trace, budget))
  {
    IterateFrom(g, s, TotalSteps(trace[..|trace| - 1], budget), StepsOf(trace[|trace| - 1], budget));
  }

  lemma {:induction false} PartsAreGenuine(trace: seq<SegmentRun>, budget: Budget, game: bool)
    requires |trace| > 0 && AllGenuine(trace, budget, game)
    ensures AllGenuine(trace[..|trace| - 1], budget, game) && AllGenuine([trace[|trace| - 1]], budget, game)
  {
  }

  lemma {:induction false} TraceStaysOnTheTurn<M(!new)>(g: Guest<M>, s: GuestState<M>, returnPc: Word, budget: Budget,
      game: bool, trace: seq<SegmentRun>, first: Loop)
    requires Sincere(g) && Uncharged(g) && AllGenuine(trace, budget, game) && Chained(trace, first)
    requires PlaysAll(g, s, trace, budget)
    requires Bounded(first, returnPc, budget) && first.consumed == first.dispatches == 0 && first.nextPc == s.regs.pc
    ensures !Left(trace) ==>
              OnTheTurn(g, s, returnPc, budget, Reached(trace, first), Iterate(g, s, TotalSteps(trace, budget)))
    ensures Left(trace) ==> StillOnTheTurn(g, s, returnPc, budget, trace[|trace| - 1],
                                           Iterate(g, s, TotalSteps(trace, budget)))
  {
    if |trace| == 0 {
      assert Remaining(first, budget) == budget;
    } else {
      var init := trace[..|trace| - 1];
      PartsAreGenuine(trace, budget, game);
      TraceStaysOnTheTurn(g, s, returnPc, budget, game, init, first);
      LastPass(g, s, returnPc, budget, game, trace, Iterate(g, s, TotalSteps(init, budget)));
    }
  }

  /** Over a deterministic guest the executor's loop ends as the uninterrupted turn does, in reason, pc and cycles and
      with the guest in the same state, whatever the field and device deadlines cut its segments to and however often
      pending work is serviced in between. */
  lemma {:induction false} LoopEndsAsTheTurn<M(!new)>(g: Guest<M>, s: GuestState<M>, returnPc: Word, budget: Budget,
      game: bool, policy: FallbackPolicy, pending: Pending, trace: seq<SegmentRun>, result: ExecutionResult)
    requires Sincere(g) && Uncharged(g) && AllGenuine(trace, budget, game) && PlaysAll(g, s, trace, budget)
    requires EndsAs(trace, Entered(s.regs.pc, Some(returnPc), true, policy, pending), budget.cycles, result)
    ensures var end := RunTurn(g, s, returnPc, budget);
            && result == ExecutionResult(end.reason, end.state.regs.pc, end.cycles)
            && end.state == Iterate(g, s, TotalSteps(trace, budget))
  {
    TraceStaysOnTheTurn(g, s, returnPc, budget, game, trace,
                        Entered(s.regs.pc, Some(returnPc), true, policy, pending));
  }
}
