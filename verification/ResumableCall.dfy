/** Slicing a guest call: a deterministic guest run in turns, its registers put away and taken back between them, is the
    guest run in one piece, through saves and loads too. */
module ResumableCalls {
  import opened GuestTypes
  import opened BlobCodecs

  const V0 := 2
  const RA := 31

  /** The register file a suspended call keeps: GPRs, hi, lo and pc. COP0, the GTE and RAM are not part of it. */
  datatype Registers = Registers(r: seq<Word>, hi: Word, lo: Word, pc: Word) {
    predicate Shaped() {
      |r| == 32
    }
  }

  type R3000 = s: Registers | s.Shaped() witness Registers(seq(32, _ => 0), 0, 0, 0)

  // ---- the guest -------------------------------------------------------------------------------------

  /** Registers and everything a turn does not save: RAM, COP0 and GTE. */
  datatype GuestState<M> = GuestState(regs: R3000, memory: M)

  /** One step from a block boundary: its effect, its cycles, and the exit it asks for, if any. */
  datatype BlockStep<M> = BlockStep(after: GuestState<M>, cycles: nat, exit: Option<ExitReason>)

  /** A deterministic guest: what is done at each boundary, whether that is a host service, and, for a call entered past
      its own override, the original's address. */
  datatype Guest<!M> = Guest(block: GuestState<M> -> BlockStep<M>, service: GuestState<M> -> bool,
                             original: Option<Word>)

  /** A guest block that asks for no exit costs at least one cycle. A host service, or a step that leaves, may be
      free. */
  ghost predicate Costly<M(!new)>(g: Guest<M>) {
    forall s :: g.block(s).exit.None? && !g.service(s) ==> g.block(s).cycles >= 1
  }

  /** A guest that never reports a return it did not make, whose host services return to ra; any other exit may be asked
      for. */
  ghost predicate Sincere<M(!new)>(g: Guest<M>) {
    && Costly(g)
    && forall s :: g.block(s).exit != Some(GuestReturn) &&
                   (g.service(s) && g.block(s).exit.None? ==> g.block(s).after.regs.pc == s.regs.r[RA])
  }

  /** The machine after n steps, with no slicing at all. */
  function Iterate<M>(g: Guest<M>, s: GuestState<M>, n: nat): GuestState<M> {
    if n == 0 then s else g.block(Iterate(g, s, n - 1)).after
  }

  function CyclesOf<M>(g: Guest<M>, s: GuestState<M>, n: nat): nat {
    if n == 0 then 0 else CyclesOf(g, s, n - 1) + g.block(Iterate(g, s, n - 1)).cycles
  }

  /** How many of the first n steps are host services. */
  function ServicesOf<M>(g: Guest<M>, s: GuestState<M>, n: nat): (count: nat)
    ensures count <= n
  {
    if n == 0 then 0 else ServicesOf(g, s, n - 1) + if g.service(Iterate(g, s, n - 1)) then 1 else 0
  }

  /** The first n steps stay short of the return address. */
  ghost predicate NotYetReturned<M>(g: Guest<M>, s: GuestState<M>, returnPc: Word, n: nat) {
    forall k :: 0 <= k < n ==> Iterate(g, s, k).regs.pc != returnPc
  }

  lemma {:induction false} IterateFrom<M>(g: Guest<M>, s: GuestState<M>, k: nat, n: nat)
    ensures Iterate(g, Iterate(g, s, k), n) == Iterate(g, s, k + n)
    ensures CyclesOf(g, s, k) + CyclesOf(g, Iterate(g, s, k), n) == CyclesOf(g, s, k + n)
    ensures ServicesOf(g, s, k) + ServicesOf(g, Iterate(g, s, k), n) == ServicesOf(g, s, k + n)
  {
    if n > 0 {
      IterateFrom(g, s, k, n - 1);
    }
  }

  // ---- one turn --------------------------------------------------------------------------------------

  datatype TurnEnd<M> = TurnEnd(state: GuestState<M>, reason: ExitReason, cycles: nat)

  /** One executor run: at each boundary the cycle budget is tested, then the return address, then whether a host
      service still has a dispatch left. */
  function RunTurn<M(!new)>(g: Guest<M>, s: GuestState<M>, returnPc: Word, budget: Budget): TurnEnd<M>
    requires Costly(g)
    decreases budget.cycles, budget.maxHostDispatches
  {
    if budget.cycles == 0 then TurnEnd(s, BudgetExhausted, 0)
    else if s.regs.pc == returnPc then TurnEnd(s, GuestReturn, 0)
    else if g.service(s) && budget.maxHostDispatches == 0 then TurnEnd(s, BudgetExhausted, 0)
    else
      var step := g.block(s);
      if step.exit.Some? then TurnEnd(step.after, step.exit.value, step.cycles)
      else if step.cycles >= budget.cycles then TurnEnd(step.after, BudgetExhausted, step.cycles)
      else
        var rest := RunTurn(g, step.after, returnPc, Spent(budget, step.cycles, g.service(s)));
        rest.(cycles := step.cycles + rest.cycles)
  }

  /** What is left of a budget after a step. */
  function Spent(budget: Budget, cycles: nat, service: bool): Budget
    requires cycles < budget.cycles && (service ==> budget.maxHostDispatches > 0)
  {
    Budget(budget.cycles - cycles, if service then budget.maxHostDispatches - 1 else budget.maxHostDispatches)
  }

  /** A run's end seen from some steps earlier. */
  function Later<M>(end: TurnEnd<M>, cycles: nat): TurnEnd<M> {
    end.(cycles := cycles + end.cycles)
  }

  lemma {:induction false} TurnAfter<M(!new)>(g: Guest<M>, s: GuestState<M>, returnPc: Word, budget: Budget,
                                              step: BlockStep<M>, service: bool)
    requires Costly(g) && budget.cycles > 0 && s.regs.pc != returnPc && step == g.block(s) && service == g.service(s)
    requires service ==> budget.maxHostDispatches > 0
    ensures step.exit.Some? ==>
              RunTurn(g, s, returnPc, budget) == TurnEnd(step.after, step.exit.value, step.cycles)
    ensures step.exit.None? && step.cycles >= budget.cycles ==>
              RunTurn(g, s, returnPc, budget) == TurnEnd(step.after, BudgetExhausted, step.cycles)
    ensures step.exit.None? && step.cycles < budget.cycles ==>
              RunTurn(g, s, returnPc, budget) ==
              Later(RunTurn(g, step.after, returnPc, Spent(budget, step.cycles, service)), step.cycles)
  {
  }

  predicate Suspends(reason: ExitReason) {
    reason == BudgetExhausted || reason == FrameBoundary || reason == CooperativeYield
  }

  /** A step after which a turn can end and be resumed: one that goes on, or that asks for a field barrier, a yield, or
      an exhausted budget with some progress to show for it. */
  predicate Resumes<M>(step: BlockStep<M>) {
    match step.exit
    case None => true
    case Some(FrameBoundary) => true
    case Some(CooperativeYield) => true
    case Some(BudgetExhausted) => step.cycles >= 1
    case Some(_) => false
  }

  /** Between `from` and n only the last step may ask for an exit, the one the turn ended with; an exit that is neither
      a return nor an exhausted budget was asked for. */
  ghost predicate AsksOnlyToEnd<M>(g: Guest<M>, s: GuestState<M>, from: nat, n: nat, reason: ExitReason) {
    && (forall k :: from <= k < n ==>
          var exit := g.block(Iterate(g, s, k)).exit;
          exit.None? || (k == n - 1 && exit == Some(reason)))
    && (reason != GuestReturn && reason != BudgetExhausted ==>
          from < n && g.block(Iterate(g, s, n - 1)).exit == Some(reason))
  }

  lemma {:induction false} AsksJoin<M>(g: Guest<M>, s: GuestState<M>, k: nat, more: nat, reason: ExitReason)
    requires AsksOnlyToEnd(g, Iterate(g, s, k), 0, more, reason)
    ensures AsksOnlyToEnd(g, s, k, k + more, reason)
  {
    forall i | k <= i < k + more ensures Iterate(g, s, i) == Iterate(g, Iterate(g, s, k), i - k) {
      IterateFrom(g, s, k, i - k);
    }
  }

  /** The n-th step of the run asked for an exit no turn resumes from. */
  ghost predicate RefusedBy<M>(g: Guest<M>, s: GuestState<M>, n: nat, reason: ExitReason) {
    n > 0 && g.block(Iterate(g, s, n - 1)).exit == Some(reason) && !Resumes(g.block(Iterate(g, s, n - 1)))
  }

  /** The turn's budget let nothing be charged: no cycles at all, or its dispatches went to n free host services. */
  ghost predicate Starved<M>(g: Guest<M>, s: GuestState<M>, n: nat, budget: Budget) {
    budget.cycles == 0 || (g.service(Iterate(g, s, n)) && ServicesOf(g, s, n) == budget.maxHostDispatches)
  }

  lemma {:induction false} StretchesJoin<M>(g: Guest<M>, s: GuestState<M>, k: nat, more: nat)
    ensures Iterate(g, Iterate(g, s, k), more) == Iterate(g, s, k + more)
    ensures CyclesOf(g, s, k) + CyclesOf(g, Iterate(g, s, k), more) == CyclesOf(g, s, k + more)
    ensures ServicesOf(g, s, k) + ServicesOf(g, Iterate(g, s, k), more) == ServicesOf(g, s, k + more)
    ensures forall reason :: RefusedBy(g, Iterate(g, s, k), more, reason) ==> RefusedBy(g, s, k + more, reason)
  {
    IterateFrom(g, s, k, more);
    if more > 0 {
      IterateFrom(g, s, k, more - 1);
    }
  }

  lemma {:induction false} ShortStretchesJoin<M>(g: Guest<M>, s: GuestState<M>, returnPc: Word, from: nat, k: nat,
                                                 more: nat)
    requires from <= k && forall i :: from <= i < k ==> Iterate(g, s, i).regs.pc != returnPc
    requires NotYetReturned(g, Iterate(g, s, k), returnPc, more)
    ensures forall i :: from <= i < k + more ==> Iterate(g, s, i).regs.pc != returnPc
  {
    forall i | k <= i < k + more ensures Iterate(g, s, i).regs.pc != returnPc {
      IterateFrom(g, s, k, i - k);
    }
  }

  /** How a turn that stopped for a budget or an exit came to. */
  ghost predicate Explained<M>(g: Guest<M>, s: GuestState<M>, n: nat, end: TurnEnd<M>, budget: Budget) {
    && (end.reason != GuestReturn && !Suspends(end.reason) ==> RefusedBy(g, s, n, end.reason))
    && (end.reason == BudgetExhausted && end.cycles == 0 ==>
          Starved(g, s, n, budget) || RefusedBy(g, s, n, end.reason))
    && (n == 0 ==> end.reason == GuestReturn || end.reason == BudgetExhausted)
  }

  /** The turn is the first n steps of the unsliced run, short of the return address, and ended for a reason. */
  ghost predicate IsStretch<M>(g: Guest<M>, s: GuestState<M>, returnPc: Word, n: nat, end: TurnEnd<M>, budget: Budget) {
    && end.state == Iterate(g, s, n) && end.cycles == CyclesOf(g, s, n)
    && NotYetReturned(g, s, returnPc, n)
    && (end.reason == GuestReturn ==> end.state.regs.pc == returnPc)
    && Explained(g, s, n, end, budget) && AsksOnlyToEnd(g, s, 0, n, end.reason)
  }

  lemma {:induction false} OneStepEarlier<M>(g: Guest<M>, s: GuestState<M>, returnPc: Word, n: nat, end: TurnEnd<M>,
                                             budget: Budget)
    requires s.regs.pc != returnPc && g.block(s).exit.None? && g.block(s).cycles < budget.cycles
    requires g.service(s) ==> budget.maxHostDispatches > 0
    requires !g.service(s) ==> g.block(s).cycles >= 1
    requires IsStretch(g, g.block(s).after, returnPc, n, end, Spent(budget, g.block(s).cycles, g.service(s)))
    ensures IsStretch(g, s, returnPc, 1 + n, Later(end, g.block(s).cycles), budget)
  {
    OneStep(g, s);
    StretchesJoin(g, s, 1, n);
    ShortStretchesJoin(g, s, returnPc, 0, 1, n);
    AsksJoin(g, s, 1, n, end.reason);
  }

  /** A turn is a stretch of the unsliced run, however it ends: it returns exactly at the first boundary that is the
      return address, and any exit it cannot be resumed from was asked for by its last step. */
  lemma {:induction false} TurnIsAStretch<M(!new)>(g: Guest<M>, s: GuestState<M>, returnPc: Word, budget: Budget)
    returns (n: nat)
    requires Sincere(g)
    ensures IsStretch(g, s, returnPc, n, RunTurn(g, s, returnPc, budget), budget)
    decreases budget.cycles, budget.maxHostDispatches
  {
    n := 0;
    if budget.cycles > 0 && s.regs.pc != returnPc && !(g.service(s) && budget.maxHostDispatches == 0) {
      var step := g.block(s);
      OneStep(g, s);
      n := 1;
      if step.exit.None? && step.cycles < budget.cycles {
        var left := Spent(budget, step.cycles, g.service(s));
        var rest := TurnIsAStretch(g, step.after, returnPc, left);
        OneStepEarlier(g, s, returnPc, rest, RunTurn(g, step.after, returnPc, left), budget);
        n := 1 + rest;
      }
    }
  }

  lemma {:induction false} OneStep<M>(g: Guest<M>, s: GuestState<M>)
    ensures Iterate(g, s, 0) == s && Iterate(g, s, 1) == g.block(s).after && CyclesOf(g, s, 1) == g.block(s).cycles
    ensures ServicesOf(g, s, 1) == if g.service(s) then 1 else 0
  {
    assert Iterate(g, s, 0) == s;
  }

  /** The first m boundaries are host services that charge nothing, short of the return address. */
  ghost predicate FreeServices<M>(g: Guest<M>, s: GuestState<M>, returnPc: Word, m: nat) {
    forall k :: 0 <= k < m ==>
      var x := Iterate(g, s, k);
      x.regs.pc != returnPc && g.service(x) && g.block(x).exit.None? && g.block(x).cycles == 0
  }

  /** After m free services the turn stops with nothing charged: at one more, with no dispatch left for it, or at a step
      that asks for the exhausted exit itself. */
  ghost predicate IdlesAt<M>(g: Guest<M>, s: GuestState<M>, returnPc: Word, dispatches: nat, m: nat) {
    && m <= dispatches && FreeServices(g, s, returnPc, m)
    && var x := Iterate(g, s, m);
       && x.regs.pc != returnPc
       && (if g.service(x) && m == dispatches then true
           else g.block(x).exit == Some(BudgetExhausted) && g.block(x).cycles == 0)
  }

  lemma {:induction false} FreeServicesShift<M>(g: Guest<M>, s: GuestState<M>, returnPc: Word, m: nat)
    requires FreeServices(g, s, returnPc, 1)
    ensures FreeServices(g, s, returnPc, m + 1) <==> FreeServices(g, g.block(s).after, returnPc, m)
    ensures Iterate(g, s, m + 1) == Iterate(g, g.block(s).after, m)
  {
    OneStep(g, s);
    IterateFrom(g, s, 1, m);
    if FreeServices(g, s, returnPc, m + 1) {
      forall k | 0 <= k < m ensures Iterate(g, g.block(s).after, k) == Iterate(g, s, k + 1) {
        IterateFrom(g, s, 1, k);
      }
    }
    if FreeServices(g, g.block(s).after, returnPc, m) {
      forall k | 0 < k < m + 1 ensures Iterate(g, s, k) == Iterate(g, g.block(s).after, k - 1) {
        IterateFrom(g, s, 1, k - 1);
      }
    }
  }

  /** How many steps such a turn ran: the free services, and the step that asked for the exit if one did. */
  ghost function IdleSteps<M>(g: Guest<M>, s: GuestState<M>, dispatches: nat, m: nat): nat {
    if g.service(Iterate(g, s, m)) && m == dispatches then m else m + 1
  }

  lemma {:induction false} IdlesAtShift<M>(g: Guest<M>, s: GuestState<M>, returnPc: Word, dispatches: nat, m: nat)
    requires FreeServices(g, s, returnPc, 1) && dispatches > 0
    ensures var after := g.block(s).after;
            && (IdlesAt(g, s, returnPc, dispatches, m + 1) <==> IdlesAt(g, after, returnPc, dispatches - 1, m))
            && IdleSteps(g, s, dispatches, m + 1) == 1 + IdleSteps(g, after, dispatches - 1, m)
            && Iterate(g, s, 1 + IdleSteps(g, after, dispatches - 1, m)) ==
               Iterate(g, after, IdleSteps(g, after, dispatches - 1, m))
  {
    FreeServicesShift(g, s, returnPc, m);
    OneStep(g, s);
    IterateFrom(g, s, 1, IdleSteps(g, g.block(s).after, dispatches - 1, m));
  }

  /** The turn ends exhausted and uncharged exactly where it idles, and stands as many steps on as were run. */
  ghost predicate IdlesExactly<M(!new)>(g: Guest<M>, s: GuestState<M>, returnPc: Word, budget: Budget)
    requires Costly(g)
  {
    var end, dispatches := RunTurn(g, s, returnPc, budget), budget.maxHostDispatches;
    && (end.reason == BudgetExhausted && end.cycles == 0 <==> exists m: nat :: IdlesAt(g, s, returnPc, dispatches, m))
    && (forall m: nat :: IdlesAt(g, s, returnPc, dispatches, m) ==>
          end.state == Iterate(g, s, IdleSteps(g, s, dispatches, m)) &&
          (IdleSteps(g, s, dispatches, m) == 0 <==> g.service(s) && dispatches == 0))
  }

  lemma {:induction false} TurnAfterFreeService<M(!new)>(g: Guest<M>, s: GuestState<M>, returnPc: Word,
                                                         budget: Budget, left: Budget)
    requires Costly(g) && budget.cycles > 0 && FreeServices(g, s, returnPc, 1) && budget.maxHostDispatches > 0
    requires left == Budget(budget.cycles, budget.maxHostDispatches - 1)
    ensures RunTurn(g, s, returnPc, budget) == RunTurn(g, g.block(s).after, returnPc, left)
  {
    OneStep(g, s);
    TurnAfter(g, s, returnPc, budget, g.block(s), true);
  }

  lemma {:induction false} IdlesOneLater<M>(g: Guest<M>, s: GuestState<M>, returnPc: Word, dispatches: nat, m: nat)
    requires FreeServices(g, s, returnPc, 1) && dispatches > 0 && IdlesAt(g, s, returnPc, dispatches, m)
    ensures m > 0 && IdlesAt(g, g.block(s).after, returnPc, dispatches - 1, m - 1)
    ensures var steps := IdleSteps(g, g.block(s).after, dispatches - 1, m - 1);
            && IdleSteps(g, s, dispatches, m) == 1 + steps
            && Iterate(g, s, 1 + steps) == Iterate(g, g.block(s).after, steps)
  {
    OneStep(g, s);
    IdlesAtShift(g, s, returnPc, dispatches, m - 1);
  }

  lemma {:induction false} IdlesAfterFreeService<M(!new)>(g: Guest<M>, s: GuestState<M>, returnPc: Word,
                                                          budget: Budget, left: Budget)
    requires Sincere(g) && budget.cycles > 0 && FreeServices(g, s, returnPc, 1) && budget.maxHostDispatches > 0
    requires left == Budget(budget.cycles, budget.maxHostDispatches - 1)
    requires IdlesExactly(g, g.block(s).after, returnPc, left)
    ensures IdlesExactly(g, s, returnPc, budget)
  {
    var end, dispatches := RunTurn(g, s, returnPc, budget), budget.maxHostDispatches;
    var after, fewer := g.block(s).after, left.maxHostDispatches;
    TurnAfterFreeService(g, s, returnPc, budget, left);
    if m: nat :| IdlesAt(g, after, returnPc, fewer, m) {
      IdlesAtShift(g, s, returnPc, dispatches, m);
      assert IdlesAt(g, s, returnPc, dispatches, m + 1);
    }
    forall m: nat | IdlesAt(g, s, returnPc, dispatches, m)
      ensures m > 0 && IdlesAt(g, after, returnPc, fewer, m - 1)
      ensures end.state == Iterate(g, s, IdleSteps(g, s, dispatches, m)) && IdleSteps(g, s, dispatches, m) > 0
    {
      IdlesOneLater(g, s, returnPc, dispatches, m);
    }
  }

  lemma {:induction false} IdlesAtOnce<M(!new)>(g: Guest<M>, s: GuestState<M>, returnPc: Word, budget: Budget)
    requires Sincere(g) && budget.cycles > 0
    requires !FreeServices(g, s, returnPc, 1) || budget.maxHostDispatches == 0
    ensures IdlesExactly(g, s, returnPc, budget)
  {
    var end, dispatches := RunTurn(g, s, returnPc, budget), budget.maxHostDispatches;
    OneStep(g, s);
    forall m: nat | IdlesAt(g, s, returnPc, dispatches, m) ensures m == 0 {
    }
    if end.reason == BudgetExhausted && end.cycles == 0 {
      assert IdlesAt(g, s, returnPc, dispatches, 0);
    }
  }

  /** A turn with cycles to spend ends exhausted and uncharged, and so is refused as idle, if and only if free host
      services use up its dispatches before anything is charged, or a step asks for that exit. The guest then stands as
      many steps on as were run, which is none only where it meets a service with no dispatch to spend at all. */
  lemma {:induction false} IdleTurnIff<M(!new)>(g: Guest<M>, s: GuestState<M>, returnPc: Word, budget: Budget)
    requires Sincere(g) && budget.cycles > 0
    ensures IdlesExactly(g, s, returnPc, budget)
    decreases budget.maxHostDispatches
  {
    if FreeServices(g, s, returnPc, 1) && budget.maxHostDispatches > 0 {
      var left := Budget(budget.cycles, budget.maxHostDispatches - 1);
      IdleTurnIff(g, g.block(s).after, returnPc, left);
      IdlesAfterFreeService(g, s, returnPc, budget, left);
    } else {
      IdlesAtOnce(g, s, returnPc, budget);
    }
  }

  /** A free host service that counts its calls in memory and returns to ra. */
  function CountingService(s: GuestState<int>): BlockStep<int> {
    BlockStep(GuestState(s.regs.(pc := s.regs.r[RA]), s.memory + 1), 0, None)
  }

  /** Finds that service at every boundary. */
  function Serving(): Guest<int> {
    Guest(CountingService, (s: GuestState<int>) => true, None)
  }

  lemma ServingIsSincere()
    ensures Sincere(Serving())
  {
  }

  lemma {:induction false} ServingAtRa(s: GuestState<int>)
    requires s.regs.pc == s.regs.r[RA]
    ensures CountingService(s).after == s.(memory := s.memory + 1)
  {
    assert s.regs.(pc := s.regs.r[RA]) == s.regs;
  }

  lemma {:induction false} ServingTurn(s: GuestState<int>, returnPc: Word, budget: Budget)
    requires Costly(Serving()) && budget.cycles > 0 && s.regs.pc == s.regs.r[RA] != returnPc
    ensures RunTurn(Serving(), s, returnPc, budget) ==
            TurnEnd(s.(memory := s.memory + budget.maxHostDispatches), BudgetExhausted, 0)
    decreases budget.maxHostDispatches
  {
    if budget.maxHostDispatches > 0 {
      var left := Budget(budget.cycles, budget.maxHostDispatches - 1);
      TurnAfter(Serving(), s, returnPc, budget, CountingService(s), true);
      ServingAtRa(s);
      ServingTurn(s.(memory := s.memory + 1), returnPc, left);
    }
  }

  /** Refused as idle, the guest has still moved: this one, standing at an ra that is not its return address, is
      dispatched as often as any budget allows and charged nothing. */
  lemma {:induction false} IdleTurnCanMove(s: GuestState<int>, returnPc: Word, budget: Budget)
    requires budget.cycles > 0 && s.regs.pc == s.regs.r[RA] != returnPc
    ensures Sincere(Serving())
    ensures RunTurn(Serving(), s, returnPc, budget) ==
            TurnEnd(s.(memory := s.memory + budget.maxHostDispatches), BudgetExhausted, 0)
  {
    ServingIsSincere();
    ServingTurn(s, returnPc, budget);
  }

  // ---- the call --------------------------------------------------------------------------------------

  datatype GuestCall = GuestCall(
    owner: seq<Byte>,
    entry: Word,
    returnPc: Word,
    resumePc: Word,
    turnCap: Word,
    turns: Word,
    cycles: nat,
    suspended: R3000,
    pending: bool)

  datatype Outcome = Returned(value: Word) | Suspended | Refused

  datatype CallStep = CallStep(outcome: Outcome, guestPc: Word, turns: nat, cycles: nat, reason: ExitReason)

  datatype Advanced<M> = Advanced(call: GuestCall, core: GuestState<M>, step: CallStep)

  /** A call about to make its first turn, on a machine whose ra is its return address. */
  function Begun<M>(core: GuestState<M>, owner: seq<Byte>, entry: Word, returnPc: Word, turnCap: Word,
                    suspended: R3000): (GuestCall, GuestState<M>) {
    (GuestCall(owner, entry, returnPc, entry, turnCap, 0, 0, suspended, true),
     core.(regs := core.regs.(r := core.regs.r[RA := returnPc])))
  }

  /** A native caller's scoped pc, put back over whatever the run left. */
  function UnderCaller<M>(core: GuestState<M>, callerPc: Option<Word>): GuestState<M> {
    if callerPc.Some? then core.(regs := core.regs.(pc := callerPc.value)) else core
  }

  function At<M>(core: GuestState<M>, pc: Word): GuestState<M> {
    core.(regs := core.regs.(pc := pc))
  }

  /** How a turn that ran is classified; `after` is the Core once a native caller's pc is back. */
  function AfterTurn<M>(call: GuestCall, after: GuestState<M>, reason: ExitReason, pc: Word, cycles: nat): Advanced<M> {
    var ran := call.(cycles := call.cycles + cycles, turns := (call.turns + 1) % 0x1_0000_0000);
    if reason == GuestReturn then
      Advanced(ran.(pending := false), after, CallStep(Returned(after.regs.r[V0]), pc, ran.turns, ran.cycles, reason))
    else if !Suspends(reason) || (reason == BudgetExhausted && cycles == 0) then
      Advanced(ran, after, CallStep(Refused, pc, ran.turns, ran.cycles, reason))
    else
      Advanced(ran.(resumePc := pc, suspended := after.regs), after,
               CallStep(Suspended, pc, ran.turns, ran.cycles, reason))
  }

  predicate Runs(call: GuestCall) {
    call.pending && (call.turnCap == 0 || call.turns < call.turnCap)
  }

  /** A first turn without a key finds a host service at the entry and dispatches it directly, past the executor. */
  ghost predicate Direct<M>(g: Guest<M>, start: GuestState<M>) {
    g.original.None? && g.service(start)
  }

  /** A first turn that never enters the executor: one service, whose exit is the turn's, or a return. */
  function Served<M>(g: Guest<M>, s: GuestState<M>): TurnEnd<M> {
    var step := g.block(s);
    TurnEnd(step.after, if step.exit.Some? then step.exit.value else GuestReturn, step.cycles)
  }

  /** The first turn: an original goes straight to the executor, any other entry is dispatched. */
  function FirstRun<M(!new)>(g: Guest<M>, s: GuestState<M>, returnPc: Word, budget: Budget): TurnEnd<M>
    requires Costly(g)
  {
    if g.original.None? && g.service(s) then Served(g, s) else RunTurn(g, s, returnPc, budget)
  }

  /** Where the first turn enters: the original's own address, or the call's entry. */
  function FirstPc<M>(call: GuestCall, g: Guest<M>): Word {
    if g.original.Some? then g.original.value else call.entry
  }

  /** What a call that already ran starts from: the registers it kept, at its resume pc, over the live memory. */
  function Kept<M>(call: GuestCall, memory: M): GuestState<M> {
    GuestState(call.suspended.(pc := call.resumePc), memory)
  }

  /** The run of one turn: the first from the entry to the latched ra, a later one from what the call kept. */
  function TurnOf<M(!new)>(call: GuestCall, core: GuestState<M>, g: Guest<M>, budget: Budget): TurnEnd<M>
    requires Costly(g)
  {
    if call.turns == 0 then FirstRun(g, At(core, FirstPc(call, g)), core.regs.r[RA], budget)
    else RunTurn(g, Kept(call, core.memory), call.returnPc, budget)
  }

  /** One host turn, classified. `callerPc` is the pc of a native body this turn is nested in. */
  function Advance<M(!new)>(call: GuestCall, core: GuestState<M>, g: Guest<M>, budget: Budget,
                            callerPc: Option<Word>): Advanced<M>
    requires Costly(g)
  {
    if !Runs(call) then
      Advanced(call, core,
               CallStep(Refused, if call.pending then call.resumePc else 0, call.turns, call.cycles, BudgetExhausted))
    else
      var end := TurnOf(call, core, g, budget);
      AfterTurn(call, UnderCaller(end.state, callerPc), end.reason, end.state.regs.pc, end.cycles)
  }

  // ---- slicing changes nothing -----------------------------------------------------------------------

  /** n steps in, the run has not come to the return address; a directly dispatched entry is not asked. */
  ghost predicate Onward<M>(g: Guest<M>, start: GuestState<M>, returnPc: Word, n: nat) {
    forall k :: (if Direct(g, start) then 1 else 0) <= k < n ==> Iterate(g, start, k).regs.pc != returnPc
  }

  /** The call stands n steps into the unsliced run from `start`: what it kept, with the memory left alone, is that
      point of the run, and its cycles are the run's. */
  ghost predicate StandsAt<M>(call: GuestCall, memory: M, g: Guest<M>, start: GuestState<M>, n: nat) {
    && call.pending && Kept(call, memory) == Iterate(g, start, n)
    && call.cycles == CyclesOf(g, start, n) && Onward(g, start, call.returnPc, n)
  }

  /** The call has returned: the live machine is the unsliced run at its first arrival at the return address. */
  ghost predicate ReturnedAt<M>(a: Advanced<M>, g: Guest<M>, start: GuestState<M>, returnPc: Word, n: nat) {
    && Iterate(g, start, n).regs.pc == returnPc && Onward(g, start, returnPc, n)
    && At(a.core, returnPc) == Iterate(g, start, n) && a.step.guestPc == returnPc
    && a.step.outcome == Returned(Iterate(g, start, n).regs.r[V0])
    && a.call.cycles == CyclesOf(g, start, n) && !a.call.pending
  }

  /** The turn was refused: the live machine is the unsliced run n steps in, short of the return address. */
  ghost predicate RefusedAt<M>(a: Advanced<M>, g: Guest<M>, start: GuestState<M>, returnPc: Word, n: nat) {
    && At(a.core, a.step.guestPc) == Iterate(g, start, n) && a.call.pending
    && a.call.cycles == CyclesOf(g, start, n) && Onward(g, start, returnPc, n)
  }

  /** A budget that can run out before a run of n steps is charged anything. */
  predicate Starves(budget: Budget, n: nat) {
    budget.cycles == 0 || budget.maxHostDispatches <= n
  }

  /** A turn that started `before` steps in and was charged nothing by step n: its budget let nothing be charged, or
      the last step asked for the exhausted exit. */
  ghost predicate Stalled<M>(g: Guest<M>, start: GuestState<M>, before: nat, n: nat, budget: Budget) {
    && before <= n && CyclesOf(g, start, n) == CyclesOf(g, start, before)
    && (Starved(g, Iterate(g, start, before), n - before, budget) ||
        (before < n && g.block(Iterate(g, start, n - 1)).exit == Some(BudgetExhausted)))
  }

  lemma StallStarves<M>(g: Guest<M>, start: GuestState<M>, before: nat, n: nat, budget: Budget)
    requires Stalled(g, start, before, n, budget)
    ensures Starves(budget, n) || RefusedBy(g, start, n, BudgetExhausted)
  {
    if !Starved(g, Iterate(g, start, before), n - before, budget) {
      IterateFrom(g, start, before, n - 1 - before);
    }
  }

  /** How a turn that ran came out, n steps into the run; it started `before` steps in. A field barrier, a yield and a
      charged exhausted budget suspend it, every other exit but a return is refused. */
  ghost predicate TurnedOut<M>(a: Advanced<M>, g: Guest<M>, start: GuestState<M>, returnPc: Word, before: nat, n: nat,
                               budget: Budget) {
    && before <= n && AsksOnlyToEnd(g, start, before, n, a.step.reason)
    && match a.step.outcome
       case Returned(_) => ReturnedAt(a, g, start, returnPc, n) && a.step.reason == GuestReturn
       case Suspended =>
         && StandsAt(a.call, a.core.memory, g, start, n) && n > before
         && SuspendedBy(g, start, before, n, a.step.reason)
       case Refused =>
         && RefusedAt(a, g, start, returnPc, n)
         && (|| (a.step.reason == BudgetExhausted && Stalled(g, start, before, n, budget))
             || a.step.reason == HostService || a.step.reason == InterruptOrException
             || a.step.reason == ProcessExit || a.step.reason == Fault)
  }

  ghost predicate SuspendedBy<M>(g: Guest<M>, start: GuestState<M>, before: nat, n: nat, reason: ExitReason) {
    || reason == FrameBoundary || reason == CooperativeYield
    || (reason == BudgetExhausted && CyclesOf(g, start, n) > CyclesOf(g, start, before))
  }

  /** What a refusal says of the run. */
  lemma {:induction false} RefusalIsExplained<M>(a: Advanced<M>, g: Guest<M>, start: GuestState<M>, returnPc: Word,
                                                 before: nat, n: nat, budget: Budget)
    requires TurnedOut(a, g, start, returnPc, before, n, budget) && a.step.outcome == Refused
    ensures RefusedBy(g, start, n, a.step.reason) || (a.step.reason == BudgetExhausted && Starves(budget, n))
  {
    if a.step.reason == BudgetExhausted {
      StallStarves(g, start, before, n, budget);
    }
  }

  lemma {:induction false} FirstTurn<M(!new)>(call: GuestCall, core: GuestState<M>, g: Guest<M>, budget: Budget,
                                              callerPc: Option<Word>) returns (n: nat)
    requires Sincere(g) && call.pending && call.turns == 0 && call.cycles == 0 && core.regs.r[RA] == call.returnPc
    ensures TurnedOut(Advance(call, core, g, budget, callerPc), g, At(core, FirstPc(call, g)), call.returnPc, 0, n,
                      budget)
    ensures Advance(call, core, g, budget, callerPc).call.turns == 1
  {
    var start := At(core, FirstPc(call, g));
    if Direct(g, start) {
      n := 1;
      OneStep(g, start);
    } else {
      n := TurnIsAStretch(g, start, call.returnPc, budget);
    }
  }

  /** A later turn, whatever happened to the register file since the last one: `core` shares only its memory with the
      machine that was left. */
  lemma {:induction false} LaterTurn<M(!new)>(call: GuestCall, core: GuestState<M>, g: Guest<M>, start: GuestState<M>,
                                              before: nat, budget: Budget, callerPc: Option<Word>) returns (n: nat)
    requires Sincere(g) && 0 < call.turns && Runs(call)
    requires call.turns < 0xFFFF_FFFF && StandsAt(call, core.memory, g, start, before)
    ensures TurnedOut(Advance(call, core, g, budget, callerPc), g, start, call.returnPc, before, n, budget)
    ensures Advance(call, core, g, budget, callerPc).call.turns == call.turns + 1
  {
    var here := Iterate(g, start, before);
    var more := TurnIsAStretch(g, here, call.returnPc, budget);
    n := before + more;
    StretchGoesOn(g, start, call.returnPc, before, more, RunTurn(g, here, call.returnPc, budget), budget);
  }

  /** A turn that starts `before` steps in, seen from the run's start. */
  lemma {:induction false} StretchGoesOn<M>(g: Guest<M>, start: GuestState<M>, returnPc: Word, before: nat, more: nat,
                                            end: TurnEnd<M>, budget: Budget)
    requires Onward(g, start, returnPc, before)
    requires IsStretch(g, Iterate(g, start, before), returnPc, more, end, budget)
    ensures var n := before + more;
            && end.state == Iterate(g, start, n) && CyclesOf(g, start, n) == CyclesOf(g, start, before) + end.cycles
            && Onward(g, start, returnPc, n) && AsksOnlyToEnd(g, start, before, n, end.reason)
            && (end.reason == BudgetExhausted && end.cycles == 0 ==> Stalled(g, start, before, n, budget))
            && (more == 0 ==> end.reason == GuestReturn || (end.reason == BudgetExhausted && end.cycles == 0))
  {
    StretchesJoin(g, start, before, more);
    OnwardJoins(g, start, returnPc, before, more);
    AsksJoin(g, start, before, more, end.reason);
    if more > 0 {
      IterateFrom(g, start, before, more - 1);
    }
  }

  lemma {:induction false} OnwardJoins<M>(g: Guest<M>, start: GuestState<M>, returnPc: Word, before: nat, more: nat)
    requires Onward(g, start, returnPc, before) && NotYetReturned(g, Iterate(g, start, before), returnPc, more)
    ensures Onward(g, start, returnPc, before + more)
  {
    forall k | (if Direct(g, start) then 1 else 0) <= k < before + more
      ensures Iterate(g, start, k).regs.pc != returnPc
    {
      if k >= before {
        IterateFrom(g, start, before, k - before);
      }
    }
  }

  /** A turn leaves the machine where it ended, but for the pc of a native caller it is nested in. */
  lemma CallerPcIsPutBack<M(!new)>(call: GuestCall, core: GuestState<M>, g: Guest<M>, budget: Budget,
                                   callerPc: Option<Word>)
    requires Costly(g) && Runs(call)
    ensures var a := Advance(call, core, g, budget, callerPc);
            && At(a.core, a.step.guestPc) == TurnOf(call, core, g, budget).state
            && a.core.regs.pc == if callerPc.Some? then callerPc.value else a.step.guestPc
  {
  }

  /** A call that is not pending, or met its cap, is refused with nothing run and nothing changed. */
  lemma RefusedUnrunIff<M(!new)>(call: GuestCall, core: GuestState<M>, g: Guest<M>, budget: Budget,
                                 callerPc: Option<Word>)
    requires Costly(g) && call.turns < 0xFFFF_FFFF
    ensures var a := Advance(call, core, g, budget, callerPc);
            && (a.call.turns == call.turns <==> !call.pending || (call.turnCap != 0 && call.turns >= call.turnCap))
            && (a.call.turns == call.turns ==>
                  && a.call == call && a.core == core
                  && a.step == CallStep(Refused, if call.pending then call.resumePc else 0, call.turns, call.cycles,
                                        BudgetExhausted))
  {
  }

  /** One turn as its host sees it: what it did to the registers before the turn, whether it saved and loaded the call,
      the budget, and its own pc. */
  datatype Turn = Turn(clobbered: R3000, reloaded: bool, budget: Budget, callerPc: Option<Word>)

  /** Advances until the turns run out or the call no longer suspends. */
  function AdvanceAll<M(!new)>(call: GuestCall, core: GuestState<M>, g: Guest<M>, turns: seq<Turn>): Advanced<M>
    requires Costly(g) && |turns| > 0
  {
    var last := turns[|turns| - 1];
    if |turns| == 1 then Advance(call, core, g, last.budget, last.callerPc)
    else
      var before := AdvanceAll(call, core, g, turns[..|turns| - 1]);
      if !before.step.outcome.Suspended? then before
      else
        Advance(if last.reloaded then Reloaded(before.call) else before.call, before.core.(regs := last.clobbered), g,
                last.budget, last.callerPc)
  }

  /** How a call begun at `start` and advanced over `turns` stands against the unsliced run, n steps in. */
  ghost predicate SlicedAs<M>(a: Advanced<M>, g: Guest<M>, start: GuestState<M>, returnPc: Word, turnCap: Word,
                              turns: seq<Turn>, n: nat) {
    && a.call.returnPc == returnPc && a.call.turnCap == turnCap
    && 0 < a.call.turns <= |turns| && (turnCap != 0 ==> a.call.turns <= turnCap)
    && match a.step.outcome
       case Returned(_) => ReturnedAt(a, g, start, returnPc, n)
       case Suspended => StandsAt(a.call, a.core.memory, g, start, n) && a.call.turns == |turns|
                         && (a.step.reason == FrameBoundary || a.step.reason == CooperativeYield ||
                             a.step.reason == BudgetExhausted)
       case Refused =>
         || (turnCap != 0 && a.call.turns == turnCap && StandsAt(a.call, a.core.memory, g, start, n))
         || (RefusedAt(a, g, start, returnPc, n) &&
             (RefusedBy(g, start, n, a.step.reason) || SomeStarves(turns, n)))
  }

  ghost predicate SomeStarves(turns: seq<Turn>, n: nat) {
    exists i :: 0 <= i < |turns| && Starves(turns[i].budget, n)
  }

  lemma {:induction false} OneMoreTurn<M(!new)>(before: Advanced<M>, g: Guest<M>, start: GuestState<M>, returnPc: Word,
      turnCap: Word, turns: seq<Turn>, k: nat, turn: Turn) returns (n: nat)
    requires Sincere(g) && |turns| < 0xFFFF_FFFE
    requires SlicedAs(before, g, start, returnPc, turnCap, turns, k) && before.step.outcome.Suspended?
    ensures SlicedAs(Advance(before.call, before.core.(regs := turn.clobbered), g, turn.budget, turn.callerPc), g,
                     start, returnPc, turnCap, turns + [turn], n)
  {
    assert (turns + [turn])[|turns|] == turn;
    n := k;
    if turnCap == 0 || before.call.turns < turnCap {
      n := LaterTurn(before.call, before.core.(regs := turn.clobbered), g, start, k, turn.budget, turn.callerPc);
      var after := Advance(before.call, before.core.(regs := turn.clobbered), g, turn.budget, turn.callerPc);
      if after.step.outcome == Refused {
        RefusalIsExplained(after, g, start, returnPc, k, n, turn.budget);
      }
    }
  }

  /** Sliced over any host turns, its registers clobbered in any way between them and the call itself saved and
      loaded or not, a call is the unsliced run: suspended it stands at a point of that run short of the return
      address; returned it is that run's first arrival there with that run's value; refused it met its cap, an exit
      the run itself asked for, or a budget that ran out before anything was charged. Its cycles are that run's and
      its turns never pass the cap. */
  lemma {:induction false} SlicedCallIsTheUnslicedRun<M(!new)>(owner: seq<Byte>, entry: Word, returnPc: Word,
      turnCap: Word, suspended: R3000, core: GuestState<M>, g: Guest<M>, turns: seq<Turn>) returns (n: nat)
    requires Sincere(g) && 0 < |turns| < 0xFFFF_FFFF
    ensures var (call, latched) := Begun(core, owner, entry, returnPc, turnCap, suspended);
            SlicedAs(AdvanceAll(call, latched, g, turns), g, At(latched, FirstPc(call, g)), returnPc, turnCap, turns, n)
  {
    var (call, latched) := Begun(core, owner, entry, returnPc, turnCap, suspended);
    var last := turns[|turns| - 1];
    if |turns| == 1 {
      n := FirstTurn(call, latched, g, last.budget, last.callerPc);
      var after := Advance(call, latched, g, last.budget, last.callerPc);
      if after.step.outcome == Refused {
        RefusalIsExplained(after, g, At(latched, FirstPc(call, g)), returnPc, 0, n, last.budget);
      }
    } else {
      var init := turns[..|turns| - 1];
      assert turns == init + [last];
      n := SlicedCallIsTheUnslicedRun(owner, entry, returnPc, turnCap, suspended, core, g, init);
      var before := AdvanceAll(call, latched, g, init);
      if before.step.outcome.Suspended? {
        n := OneMoreTurn(before, g, At(latched, FirstPc(call, g)), returnPc, turnCap, init, n, last);
      } else if SomeStarves(init, n) {
        var i :| 0 <= i < |init| && Starves(init[i].budget, n);
        assert Starves(turns[i].budget, n);
      }
    }
  }

  /** With no cap, a call whose unsliced run returns after n steps, none of which asks for an exit no turn resumes from,
      has returned by turn n + 1 at the latest, when every turn has cycles and more than n dispatches to spend. */
  lemma {:induction false} UncappedCallReturns<M(!new)>(owner: seq<Byte>, entry: Word, returnPc: Word, suspended: R3000,
      core: GuestState<M>, g: Guest<M>, turns: seq<Turn>, n: nat)
    requires Sincere(g) && n < |turns| < 0xFFFF_FFFF
    requires forall i :: 0 <= i < |turns| ==> !Starves(turns[i].budget, n)
    requires var (call, latched) := Begun(core, owner, entry, returnPc, 0, suspended);
             && (Direct(g, At(latched, FirstPc(call, g))) ==> n > 0)
             && Iterate(g, At(latched, FirstPc(call, g)), n).regs.pc == returnPc
             && forall k :: 0 <= k < n ==> Resumes(g.block(Iterate(g, At(latched, FirstPc(call, g)), k)))
    ensures var (call, latched) := Begun(core, owner, entry, returnPc, 0, suspended);
            AdvanceAll(call, latched, g, turns).step.outcome.Returned?
  {
    var k := SlicedCallIsTheUnslicedRun(owner, entry, returnPc, 0, suspended, core, g, turns);
    var (call, latched) := Begun(core, owner, entry, returnPc, 0, suspended);
    if AdvanceAll(call, latched, g, turns).step.outcome.Suspended? {
      var _ := SuspendedTurnsAdvance(owner, entry, returnPc, suspended, core, g, turns);
    }
  }

  /** Every suspending turn runs at least one step. */
  lemma {:induction false} SuspendedTurnsAdvance<M(!new)>(owner: seq<Byte>, entry: Word, returnPc: Word,
      suspended: R3000, core: GuestState<M>, g: Guest<M>, turns: seq<Turn>) returns (n: nat)
    requires Sincere(g) && 0 < |turns| < 0xFFFF_FFFF
    requires var (call, latched) := Begun(core, owner, entry, returnPc, 0, suspended);
             AdvanceAll(call, latched, g, turns).step.outcome.Suspended?
    ensures n >= |turns|
    ensures var (call, latched) := Begun(core, owner, entry, returnPc, 0, suspended);
            var a := AdvanceAll(call, latched, g, turns);
            StandsAt(a.call, a.core.memory, g, At(latched, FirstPc(call, g)), n) && a.call.returnPc == returnPc &&
            a.call.turns == |turns| && a.call.turnCap == 0
  {
    var (call, latched) := Begun(core, owner, entry, returnPc, 0, suspended);
    var last := turns[|turns| - 1];
    if |turns| == 1 {
      n := FirstTurn(call, latched, g, last.budget, last.callerPc);
    } else {
      var init := turns[..|turns| - 1];
      var before := AdvanceAll(call, latched, g, init);
      var k := SuspendedTurnsAdvance(owner, entry, returnPc, suspended, core, g, init);
      n := LaterTurn(before.call, before.core.(regs := last.clobbered), g, At(latched, FirstPc(call, g)), k,
                     last.budget, last.callerPc);
    }
  }

  // ---- when a refused call may be advanced again -----------------------------------------------------

  /** The call is about to take a turn `before` steps into the run from `start`: its first, or one it resumes. */
  ghost predicate Placed<M>(call: GuestCall, core: GuestState<M>, g: Guest<M>, start: GuestState<M>, before: nat) {
    if call.turns == 0 then
      && call.pending && call.cycles == 0 && core.regs.r[RA] == call.returnPc
      && before == 0 && start == At(core, FirstPc(call, g))
    else StandsAt(call, core.memory, g, start, before) && call.turns < 0xFFFF_FFFF
  }

  /** The live registers, at the pc the step reports, are the ones the call still holds. */
  predicate HoldsTheLiveRegisters<M>(a: Advanced<M>) {
    a.core.regs.(pc := a.step.guestPc) == a.call.suspended.(pc := a.call.resumePc)
  }

  /** A refused call still stands where the machine is exactly when it met its cap, or the live registers are those it
      held before the turn: a turn that ran and was refused captured nothing. */
  lemma {:induction false} RefusedCallStandsIff<M(!new)>(call: GuestCall, core: GuestState<M>, g: Guest<M>,
      start: GuestState<M>, before: nat, budget: Budget, callerPc: Option<Word>) returns (n: nat)
    requires Sincere(g) && Placed(call, core, g, start, before)
    requires Advance(call, core, g, budget, callerPc).step.outcome == Refused
    ensures var a := Advance(call, core, g, budget, callerPc);
            && (if Runs(call) then RefusedAt(a, g, start, call.returnPc, n) else n == before)
            && (StandsAt(a.call, a.core.memory, g, start, n) <==> !Runs(call) || HoldsTheLiveRegisters(a))
  {
    if !Runs(call) {
      n := before;
    } else if call.turns == 0 {
      n := FirstTurn(call, core, g, budget, callerPc);
    } else {
      n := LaterTurn(call, core, g, start, before, budget, callerPc);
    }
  }

  /** Where every step is charged there is no other point of the run it could stand at. */
  lemma {:induction false} RefusedCallStandsSomewhereIff<M(!new)>(call: GuestCall, core: GuestState<M>, g: Guest<M>,
      start: GuestState<M>, before: nat, budget: Budget, callerPc: Option<Word>)
    requires Sincere(g) && Placed(call, core, g, start, before) && forall s :: g.block(s).cycles >= 1
    requires Advance(call, core, g, budget, callerPc).step.outcome == Refused
    ensures var a := Advance(call, core, g, budget, callerPc);
            (exists m: nat :: StandsAt(a.call, a.core.memory, g, start, m)) <==> !Runs(call) || HoldsTheLiveRegisters(a)
  {
    var n := RefusedCallStandsIff(call, core, g, start, before, budget, callerPc);
    var a := Advance(call, core, g, budget, callerPc);
    if m: nat :| StandsAt(a.call, a.core.memory, g, start, m) {
      if Runs(call) {
        SameCyclesSamePoint(g, start, m, n);
      }
    }
  }

  lemma {:induction false} SameCyclesSamePoint<M(!new)>(g: Guest<M>, s: GuestState<M>, m: nat, n: nat)
    requires (forall state :: g.block(state).cycles >= 1) && CyclesOf(g, s, m) == CyclesOf(g, s, n)
    ensures m == n
  {
    if m < n {
      CyclesGrow(g, s, m, n);
    } else if n < m {
      CyclesGrow(g, s, n, m);
    }
  }

  lemma {:induction false} CyclesGrow<M(!new)>(g: Guest<M>, s: GuestState<M>, m: nat, n: nat)
    requires m < n && forall state :: g.block(state).cycles >= 1
    ensures CyclesOf(g, s, m) < CyclesOf(g, s, n)
    decreases n
  {
    if m < n - 1 {
      CyclesGrow(g, s, m, n - 1);
    }
  }

  /** What that decides: the next turn of a refused call goes on from the machine as it is, under every budget, exactly
      when the call holds the live registers. */
  lemma {:induction false} NextTurnGoesOnIff<M(!new)>(a: Advanced<M>, g: Guest<M>)
    requires Costly(g) && a.call.turns > 0
    ensures (forall budget :: TurnOf(a.call, a.core, g, budget) ==
                              RunTurn(g, At(a.core, a.step.guestPc), a.call.returnPc, budget)) <==>
            HoldsTheLiveRegisters(a)
  {
    var none := Budget(0, 0);
    assert TurnOf(a.call, a.core, g, none).state == Kept(a.call, a.core.memory);
    assert RunTurn(g, At(a.core, a.step.guestPc), a.call.returnPc, none).state == At(a.core, a.step.guestPc);
  }

  /** An empty turn leaves a resumed call standing. An empty first turn uses up the entry: the next starts from
      registers that were never captured, and stands only if they happen to be the live ones. */
  lemma {:induction false} EmptyTurnStandsIff<M(!new)>(call: GuestCall, core: GuestState<M>, g: Guest<M>,
      start: GuestState<M>, before: nat, dispatches: nat)
    requires Sincere(g) && Placed(call, core, g, start, before) && Runs(call) && (call.turns == 0 ==> !Direct(g, start))
    ensures var a := Advance(call, core, g, Budget(0, dispatches), None);
            && a.step.outcome == Refused && a.call.turns == call.turns + 1 && a.core.memory == core.memory
            && (StandsAt(a.call, a.core.memory, g, start, before) <==>
                call.turns > 0 || call.suspended.(pc := call.resumePc) == core.regs.(pc := FirstPc(call, g)))
  {
    OneStep(g, start);
  }

  /** Counts its steps in memory, moves on by one word and asks for a fault every time. */
  function FaultingBlock(s: GuestState<int>): BlockStep<int> {
    BlockStep(GuestState(s.regs.(pc := (s.regs.pc + 4) % 0x1_0000_0000), s.memory + 1), 1, Some(Fault))
  }

  function Faulting(): Guest<int> {
    Guest(FaultingBlock, (s: GuestState<int>) => false, None)
  }

  lemma {:induction false} FaultingTurn(s: GuestState<int>, returnPc: Word, budget: Budget)
    requires budget.cycles > 0 && s.regs.pc != returnPc
    ensures Sincere(Faulting()) && !Faulting().service(s) && forall state :: Faulting().block(state).cycles >= 1
    ensures FirstRun(Faulting(), s, returnPc, budget) == TurnEnd(FaultingBlock(s).after, Fault, 1)
  {
  }

  lemma {:induction false} FaultingAdvance(call: GuestCall, latched: GuestState<int>, budget: Budget)
    requires Sincere(Faulting()) && Runs(call) && call.turns == 0 && call.resumePc == call.entry
    requires FirstRun(Faulting(), At(latched, call.entry), latched.regs.r[RA], budget) ==
             TurnEnd(FaultingBlock(At(latched, call.entry)).after, Fault, 1)
    ensures var a := Advance(call, latched, Faulting(), budget, None);
            a.step.outcome == Refused && !HoldsTheLiveRegisters(a)
  {
    var a := Advance(call, latched, Faulting(), budget, None);
    assert a.step.guestPc == (call.entry + 4) % 0x1_0000_0000 != call.entry;
    assert a.call.resumePc == call.entry;
  }

  /** There are calls that no longer stand: any call of this guest, begun at any entry from any machine whatever, leaves
      the run by being advanced after its refused first turn. */
  lemma {:induction false} RefusedCallCanLeaveTheRun(core: GuestState<int>, entry: Word, returnPc: Word, cap: Word,
      suspended: R3000, budget: Budget)
    requires budget.cycles > 0 && entry != returnPc
    ensures Sincere(Faulting())
    ensures var (call, latched) := Begun(core, [], entry, returnPc, cap, suspended);
            var a := Advance(call, latched, Faulting(), budget, None);
            && a.step.outcome == Refused
            && !exists m: nat :: StandsAt(a.call, a.core.memory, Faulting(), At(latched, entry), m)
  {
    var (call, latched) := Begun(core, [], entry, returnPc, cap, suspended);
    FaultingTurn(At(latched, entry), returnPc, budget);
    FaultingAdvance(call, latched, budget);
    RefusedCallStandsSomewhereIff(call, latched, Faulting(), At(latched, entry), 0, budget, None);
  }

  // ---- saving and loading a suspended call -----------------------------------------------------------

  function WordBytes(words: seq<Word>): (bytes: seq<Byte>)
    ensures |bytes| == 4 * |words|
  {
    seq(4 * |words|, i requires 0 <= i < 4 * |words| => Digit(words[i / 4], i % 4))
  }

  function WordAt(bytes: seq<Byte>, i: nat): Word
    requires 4 * i + 4 <= |bytes|
  {
    EncodeOfValue(bytes[4 * i..4 * i + 4]);
    Powers();
    Value(bytes[4 * i..4 * i + 4])
  }

  function WordsOf(bytes: seq<Byte>): (words: seq<Word>)
    ensures |words| == |bytes| / 4
  {
    seq(|bytes| / 4, i requires 0 <= i < |bytes| / 4 => WordAt(bytes, i))
  }

  lemma {:induction false} WordBytesAt(words: seq<Word>, k: nat)
    requires k < |words|
    ensures WordBytes(words)[4 * k..4 * k + 4] == Encode(words[k], 4)
  {
    var part := WordBytes(words)[4 * k..4 * k + 4];
    forall i | 0 <= i < 4 ensures part[i] == Encode(words[k], 4)[i] {
      assert part[i] == WordBytes(words)[4 * k + i] == Digit(words[k], i);
    }
  }

  lemma {:induction false} WordBytesSplit(words: seq<Word>)
    requires |words| > 0
    ensures WordBytes(words) == Encode(words[0], 4) + WordBytes(words[1..])
  {
    var split := Encode(words[0], 4) + WordBytes(words[1..]);
    forall i | 0 <= i < 4 * |words| ensures WordBytes(words)[i] == split[i] {
      assert WordBytes(words)[i] == Digit(words[i / 4], i % 4);
      if i >= 4 {
        assert split[i] == WordBytes(words[1..])[i - 4] == Digit(words[1..][(i - 4) / 4], (i - 4) % 4);
      }
    }
  }

  lemma {:induction false} WordsOfWordBytes(words: seq<Word>)
    ensures WordsOf(WordBytes(words)) == words
  {
    forall k | 0 <= k < |words| ensures WordsOf(WordBytes(words))[k] == words[k] {
      WordBytesAt(words, k);
      Powers();
      ValueOfEncode(words[k], 4);
    }
  }

  const REGISTER_FILE_BYTES := 140

  /** The register file as it lies in memory: r[32], hi, lo, pc. */
  function RegisterBytes(s: R3000): (bytes: seq<Byte>)
    ensures |bytes| == REGISTER_FILE_BYTES
  {
    WordBytes(s.r + [s.hi, s.lo, s.pc])
  }

  function RegistersOf(bytes: seq<Byte>): R3000
    requires |bytes| == REGISTER_FILE_BYTES
  {
    var w := WordsOf(bytes);
    Registers(w[..32], w[32], w[33], w[34])
  }

  lemma RegistersRoundTrip(s: R3000)
    ensures RegistersOf(RegisterBytes(s)) == s
  {
    var words := s.r + [s.hi, s.lo, s.pc];
    WordsOfWordBytes(words);
    assert words[..32] == s.r;
  }

  predicate Savable(call: GuestCall) {
    |call.owner| < 0x1_0000_0000 && call.cycles < 0x1_0000_0000_0000_0000
  }

  function Save(call: GuestCall): seq<Byte>
    requires Savable(call)
  {
    Blob(call.owner) + (WordBytes(CallWords(call)) + Tail(call))
  }

  /** A 32-bit read; a short one gives whatever its bytes made, which the latch disowns. */
  function ReadWord(r: Reader): (read: Read<Word>)
    requires r.Valid()
    ensures read.reader.Valid() && read.reader == ReadInt(r, 4).reader
  {
    var read := ReadInt(r, 4);
    Read(read.value % 0x1_0000_0000, read.reader)
  }

  /** The 32-bit fields of a saved call, in file order. */
  datatype CallWord = EntryWord | ReturnPcWord | ResumePcWord | TurnCapWord | TurnsWord

  const CALL_WORDS := [EntryWord, ReturnPcWord, ResumePcWord, TurnCapWord, TurnsWord]

  /** The call the bytes hold and the reader past it, or None when they do not decode. */
  function Load(r: Reader): Option<(GuestCall, Reader)>
    requires r.Valid()
  {
    var owner := ReadBlob(r);
    var words := ReadWords(owner.reader, |CALL_WORDS|);
    LoadTail(owner.value, words.value, words.reader)
  }

  function LoadTail(owner: seq<Byte>, words: seq<Word>, r: Reader): Option<(GuestCall, Reader)>
    requires r.Valid() && |words| == |CALL_WORDS|
  {
    var cycles := ReadInt(r, 8);
    var registers := ReadBlob(cycles.reader);
    var fits := registers.reader.ok && |registers.value| == REGISTER_FILE_BYTES;
    var pending := ReadInt(registers.reader.(ok := fits), 1);
    if !fits || !pending.reader.ok then None
    else
      Some((GuestCall(owner, words[0], words[1], words[2], words[3], words[4], cycles.value,
                      RegistersOf(registers.value), pending.value != 0), pending.reader))
  }

  /** n 32-bit reads in a row. */
  function ReadWords(r: Reader, n: nat): (read: Read<seq<Word>>)
    requires r.Valid()
    ensures read.reader.Valid() && read.reader.bytes == r.bytes && |read.value| == n
    decreases n
  {
    if n == 0 then Read([], r)
    else
      var first := ReadWord(r);
      var rest := ReadWords(first.reader, n - 1);
      Read([first.value] + rest.value, rest.reader)
  }

  lemma {:induction false} WordsAreRead(r: Reader, words: seq<Word>)
    requires r.Valid() && Before(r, WordBytes(words))
    ensures ReadWords(r, |words|) == Read(words, r.(offset := r.offset + 4 * |words|))
    decreases |words|
  {
    if |words| > 0 {
      Powers();
      var rest := words[1..];
      WordBytesSplit(words);
      SplitBefore(r, Encode(words[0], 4), WordBytes(rest));
      ReadIntOfEncode(r, words[0], 4);
      assert ReadWord(r) == Read(words[0], r.(offset := r.offset + 4));
      WordsAreRead(r.(offset := r.offset + 4), rest);
      assert words == [words[0]] + rest;
    }
  }

  function CallWords(call: GuestCall): seq<Word> {
    [call.entry, call.returnPc, call.resumePc, call.turnCap, call.turns]
  }

  function Tail(call: GuestCall): seq<Byte> {
    Encode(call.cycles, 8) + (Blob(RegisterBytes(call.suspended)) + Encode(if call.pending then 1 else 0, 1))
  }

  lemma {:induction false} TailIsRead(r: Reader, call: GuestCall)
    requires r.Valid() && Savable(call) && Before(r, Tail(call))
    ensures var registers := RegisterBytes(call.suspended);
            var past := r.(offset := r.offset + 8);
            var after := past.(offset := past.offset + 4 + REGISTER_FILE_BYTES);
            && past.Valid() && after.Valid()
            && ReadInt(r, 8) == Read(call.cycles, past)
            && ReadBlob(past) == Read(registers, after)
            && ReadInt(after, 1) == Read(if call.pending then 1 else 0, after.(offset := after.offset + 1))
            && RegistersOf(registers) == call.suspended
  {
    Powers();
    var registers, flag := Blob(RegisterBytes(call.suspended)), Encode(if call.pending then 1 else 0, 1);
    SplitBefore(r, Encode(call.cycles, 8), registers + flag);
    ReadIntOfEncode(r, call.cycles, 8);
    var past := r.(offset := r.offset + 8);
    SplitBefore(past, registers, flag);
    ReadBlobOfBlob(past, RegisterBytes(call.suspended));
    ReadIntOfEncode(past.(offset := past.offset + |registers|), if call.pending then 1 else 0, 1);
    RegistersRoundTrip(call.suspended);
  }

  lemma {:induction false} TailLoads(r: Reader, call: GuestCall, words: seq<Word>, tail: seq<Byte>)
    requires r.Valid() && Savable(call) && words == CallWords(call) && tail == Tail(call) && Before(r, tail)
    ensures LoadTail(call.owner, words, r) == Some((call, r.(offset := r.offset + |tail|)))
  {
    TailIsRead(r, call);
  }

  lemma {:induction false} ThreeParts(r: Reader, a: seq<Byte>, b: seq<Byte>, c: seq<Byte>, second: Reader,
                                      third: Reader)
    requires Before(r, a + (b + c)) && second == r.(offset := r.offset + |a|)
    requires third == second.(offset := second.offset + |b|)
    ensures Before(r, a) && Before(second, b) && Before(third, c) && second.Valid() && third.Valid()
  {
    SplitBefore(r, a, b + c);
    SplitBefore(second, b, c);
  }

  lemma {:induction false} HeadIsRead(r: Reader, owner: seq<Byte>, words: seq<Word>, second: Reader, third: Reader)
    requires r.Valid() && |owner| < 0x1_0000_0000 && |words| == |CALL_WORDS|
    requires Before(r, Blob(owner)) && second == r.(offset := r.offset + |Blob(owner)|)
    requires Before(second, WordBytes(words)) && third == second.(offset := second.offset + |WordBytes(words)|)
    ensures ReadBlob(r) == Read(owner, second) && ReadWords(second, |CALL_WORDS|) == Read(words, third)
  {
    ReadBlobOfBlob(r, owner);
    WordsAreRead(second, words);
  }

  lemma {:induction false} PartsLoad(r: Reader, call: GuestCall, words: seq<Word>, tail: seq<Byte>,
                                     second: Reader, third: Reader, end: Reader)
    requires r.Valid() && Savable(call) && words == CallWords(call) && tail == Tail(call)
    requires Before(r, Blob(call.owner)) && second == r.(offset := r.offset + |Blob(call.owner)|)
    requires Before(second, WordBytes(words)) && third == second.(offset := second.offset + |WordBytes(words)|)
    requires Before(third, tail) && end == third.(offset := third.offset + |tail|)
    ensures Load(r) == Some((call, end))
  {
    HeadIsRead(r, call.owner, words, second, third);
    TailLoads(third, call, words, tail);
  }

  /** A saved call loads back whole, wherever it lies in a state: every field, the kept registers and the reader just
      past it. */
  lemma {:induction false} LoadOfSave(r: Reader, call: GuestCall)
    requires r.Valid() && Savable(call) && Before(r, Save(call))
    ensures Load(r) == Some((call, r.(offset := r.offset + |Save(call)|)))
  {
    var words, tail := CallWords(call), Tail(call);
    var second := r.(offset := r.offset + |Blob(call.owner)|);
    var third := second.(offset := second.offset + |WordBytes(words)|);
    ThreeParts(r, Blob(call.owner), WordBytes(words), tail, second, third);
    PartsLoad(r, call, words, tail, second, third, r.(offset := r.offset + |Save(call)|));
  }

  lemma {:induction false} WordBytesOfWords(bytes: seq<Byte>)
    requires |bytes| % 4 == 0
    ensures WordBytes(WordsOf(bytes)) == bytes
  {
    forall i | 0 <= i < |bytes| ensures WordBytes(WordsOf(bytes))[i] == bytes[i] {
      var k := i / 4;
      EncodeOfValue(bytes[4 * k..4 * k + 4]);
      assert bytes[4 * k..4 * k + 4][i % 4] == Digit(WordAt(bytes, k), i % 4);
    }
  }

  lemma {:induction false} RegistersFill(bytes: seq<Byte>)
    requires |bytes| == REGISTER_FILE_BYTES
    ensures RegisterBytes(RegistersOf(bytes)) == bytes
  {
    var w := WordsOf(bytes);
    WordBytesOfWords(bytes);
    assert w[..32] + [w[32], w[33], w[34]] == w;
  }

  lemma Spliced(bytes: seq<Byte>, a: nat, b: nat, c: nat)
    requires a <= b <= c <= |bytes|
    ensures bytes[a..c] == bytes[a..b] + bytes[b..c]
  {
  }

  lemma {:induction false} WordWasWritten(r: Reader)
    requires r.Valid() && ReadWord(r).reader.ok
    ensures var read := ReadWord(r);
            && r.ok && r.offset + 4 <= |r.bytes| && read.reader == r.(offset := r.offset + 4)
            && r.bytes[r.offset..r.offset + 4] == Encode(read.value, 4)
  {
    ShortReadIff(r, 4);
    EncodeOfValue(r.bytes[r.offset..r.offset + 4]);
    Powers();
  }

  /** What a word-by-word read consumed, when it stayed good, is the bytes of its words. */
  lemma {:induction false} WordsWereWritten(r: Reader, n: nat)
    requires r.Valid() && ReadWords(r, n).reader.ok
    ensures var read := ReadWords(r, n);
            && r.ok && read.reader.offset == r.offset + 4 * n
            && r.bytes[r.offset..read.reader.offset] == WordBytes(read.value)
    decreases n
  {
    if n > 0 {
      var first := ReadWord(r);
      var rest := ReadWords(first.reader, n - 1);
      WordsWereWritten(first.reader, n - 1);
      WordWasWritten(r);
      WordBytesSplit([first.value] + rest.value);
      assert ([first.value] + rest.value)[1..] == rest.value;
      Spliced(r.bytes, r.offset, r.offset + 4, rest.reader.offset);
    }
  }

  lemma {:induction false} BlobWasWritten(r: Reader)
    requires r.Valid() && ReadBlob(r).reader.ok
    ensures var read := ReadBlob(r);
            && r.ok && |read.value| < 0x1_0000_0000 && read.reader.offset == r.offset + 4 + |read.value|
            && r.bytes[r.offset..read.reader.offset] == Blob(read.value)
  {
    BlobIsReadIff(r);
    Powers();
    EncodeOfValue(r.bytes[r.offset..r.offset + 4]);
    var read := ReadBlob(r);
    assert r.bytes[r.offset..read.reader.offset] ==
           r.bytes[r.offset..r.offset + 4] + r.bytes[r.offset + 4..read.reader.offset];
  }

  /** Everything a loaded call was read from but its last byte, the flag, of which any value but zero is true. */
  lemma {:induction false} TailWasWritten(r: Reader, owner: seq<Byte>, words: seq<Word>)
    requires r.Valid() && |words| == |CALL_WORDS| && LoadTail(owner, words, r).Some?
    ensures var (call, after) := LoadTail(owner, words, r).value;
            var end := after.offset - 1;
            && r.ok && after.ok && r.offset <= end < |r.bytes| && call.cycles < 0x1_0000_0000_0000_0000
            && r.bytes[r.offset..end] == Encode(call.cycles, 8) + Blob(RegisterBytes(call.suspended))
            && (call.pending <==> r.bytes[end] != 0)
  {
    var cycles := ReadInt(r, 8);
    var registers := ReadBlob(cycles.reader);
    var pending := ReadInt(registers.reader, 1);
    BlobWasWritten(cycles.reader);
    RegistersFill(registers.value);
    Powers();
    ShortReadIff(r, 8);
    EncodeOfValue(r.bytes[r.offset..r.offset + 8]);
    ShortReadIff(registers.reader, 1);
    var end := registers.reader.offset;
    assert r.bytes[r.offset..end] == r.bytes[r.offset..r.offset + 8] + r.bytes[r.offset + 8..end];
    assert r.bytes[end..end + 1] == [r.bytes[end]];
    assert Value([r.bytes[end]]) == r.bytes[end];
  }

  /** Whatever loads was saved: the bytes read are those of the loaded call, whole and in order, up to the flag, of
      which any value but zero is true. So a save cut short anywhere does not load. */
  lemma {:induction false} SaveOfLoad(r: Reader)
    requires r.Valid() && Load(r).Some?
    ensures var (call, after) := Load(r).value;
            var end := after.offset - 1;
            && r.ok && after.ok && Savable(call) && r.offset <= end < |r.bytes|
            && r.bytes[r.offset..end] == Save(call)[..|Save(call)| - 1] && (call.pending <==> r.bytes[end] != 0)
  {
    var owner := ReadBlob(r);
    var words := ReadWords(owner.reader, |CALL_WORDS|);
    var (call, after) := Load(r).value;
    TailWasWritten(words.reader, owner.value, words.value);
    HeadWasWritten(r, owner, words, after.offset - 1);
    assert words.value == CallWords(call);
    SaveButTheFlag(call, Encode(call.cycles, 8) + Blob(RegisterBytes(call.suspended)));
  }

  lemma {:induction false} HeadWasWritten(r: Reader, owner: Read<seq<Byte>>, words: Read<seq<Word>>, end: nat)
    requires r.Valid() && owner == ReadBlob(r) && words == ReadWords(owner.reader, |CALL_WORDS|) && words.reader.ok
    requires words.reader.offset <= end <= |r.bytes|
    ensures r.ok && r.offset <= end && |owner.value| < 0x1_0000_0000
    ensures r.bytes[r.offset..end] ==
            Blob(owner.value) + (WordBytes(words.value) + r.bytes[words.reader.offset..end])
  {
    WordsWereWritten(owner.reader, |CALL_WORDS|);
    BlobWasWritten(r);
    Spliced(r.bytes, r.offset, owner.reader.offset, end);
    Spliced(r.bytes, owner.reader.offset, words.reader.offset, end);
  }

  lemma {:induction false} SaveButTheFlag(call: GuestCall, tail: seq<Byte>)
    requires Savable(call) && tail == Encode(call.cycles, 8) + Blob(RegisterBytes(call.suspended))
    ensures Save(call)[..|Save(call)| - 1] == Blob(call.owner) + (WordBytes(CallWords(call)) + tail)
  {
    var flag := Encode(if call.pending then 1 else 0, 1);
    assert Tail(call) == tail + flag;
    assert Save(call) == (Blob(call.owner) + (WordBytes(CallWords(call)) + tail)) + flag;
  }

  /** The call after its host saved it and loaded it back: the very same one, while it fits the format. */
  function Reloaded(call: GuestCall): (loaded: GuestCall)
    ensures loaded == call
  {
    if !Savable(call) then call
    else
      var saved := Reader(Save(call), 0, true);
      assert saved.bytes[0..|saved.bytes|] == saved.bytes;
      LoadOfSave(saved, call);
      Load(saved).value.0
  }
}
