/** The resumable call as an object on a Core whose dispatcher decides, at every block boundary, what the guest address
    is. An original's key stays suppressed from its first turn to its last. */
module GuestCores {
  import opened GuestTypes
  import opened BlobCodecs
  import opened NativeDispatch
  import opened ResumableCalls

  /** What a boundary does, given the machine there and what the dispatcher says the address is: the guest block, or the
      host service it resolves to. */
  datatype Hosted<!M> = Hosted(step: (GuestState<M>, Resolution) -> BlockStep<M>)

  /** Everything a resolution depends on; the verdict table is only a cache of it. */
  function View(d: Dispatcher): Dispatcher {
    d.(slots := [])
  }

  function Suppressing(view: Dispatcher, key: NativeKey): Dispatcher {
    view.(suppressions := view.suppressions + [key])
  }

  /** The guest as it runs under one view of the dispatcher. */
  function Under<M>(h: Hosted<M>, view: Dispatcher, original: Option<Word>): Guest<M> {
    Guest((s: GuestState<M>) => h.step(s, Resolve(view, s.regs.pc)),
          (s: GuestState<M>) => Resolve(view, s.regs.pc).Kind() != ExecuteGuest,
          original)
  }

  /** The guest a call runs: an original's own key is suppressed throughout. */
  function GuestOf<M>(h: Hosted<M>, view: Dispatcher, original: Option<NativeKey>): Guest<M> {
    match original
    case None => Under(h, view, None)
    case Some(key) => Under(h, Suppressing(view, key), Some(key.address))
  }

  /** A boundary a run crossed and what the dispatcher answered there. */
  datatype Crossing = Crossing(pc: Word, resolved: Resolution)

  /** The n crossings after the first `from` are those of the run from `start`, each as the view resolves it. */
  ghost predicate Crossed<M>(crossings: seq<Crossing>, from: nat, g: Guest<M>, start: GuestState<M>, view: Dispatcher,
                             n: nat) {
    && |crossings| == from + n
    && forall i :: 0 <= i < n ==>
         crossings[from + i] == Crossing(Iterate(g, start, i).regs.pc, Resolve(view, Iterate(g, start, i).regs.pc))
  }

  lemma SuppressedKeyNeverResolves(d: Dispatcher, key: NativeKey, address: Word)
    requires key in d.suppressions
    ensures Resolve(d, address) != TitleOverride(key)
  {
  }

  /** While a key is suppressed no boundary is answered by its override. */
  lemma SuppressedKeyNeverAnswers<M>(crossings: seq<Crossing>, from: nat, g: Guest<M>, start: GuestState<M>,
                                     view: Dispatcher, n: nat, key: NativeKey)
    requires Crossed(crossings, from, g, start, Suppressing(view, key), n)
    ensures forall i :: from <= i < |crossings| ==> crossings[i].resolved != TitleOverride(key)
  {
    var suppressed := Suppressing(view, key);
    assert suppressed.suppressions[|view.suppressions|] == key;
    forall i | from <= i < |crossings| ensures crossings[i].resolved != TitleOverride(key) {
      var k := i - from;
      assert crossings[from + k] == Crossing(Iterate(g, start, k).regs.pc,
                                             Resolve(suppressed, Iterate(g, start, k).regs.pc));
      SuppressedKeyNeverResolves(suppressed, key, crossings[i].pc);
    }
  }

  lemma UnderAsks<M>(h: Hosted<M>, view: Dispatcher, original: Option<Word>, s: GuestState<M>, resolved: Resolution)
    requires resolved == Resolve(view, s.regs.pc)
    ensures Under(h, view, original).block(s) == h.step(s, resolved)
    ensures Under(h, view, original).service(s) == (resolved.Kind() != ExecuteGuest)
  {
  }

  lemma {:induction false} OneMoreCrossing<M>(crossings: seq<Crossing>, from: nat, g: Guest<M>, start: GuestState<M>,
      view: Dispatcher, n: nat, crossing: Crossing)
    requires Crossed(crossings, from, g, start, view, n)
    requires crossing == Crossing(Iterate(g, start, n).regs.pc, Resolve(view, Iterate(g, start, n).regs.pc))
    ensures Crossed(crossings + [crossing], from, g, start, view, n + 1)
  {
    var more := crossings + [crossing];
    forall i | 0 <= i < n + 1
      ensures more[from + i] == Crossing(Iterate(g, start, i).regs.pc, Resolve(view, Iterate(g, start, i).regs.pc))
    {
      if i < n {
        assert more[from + i] == crossings[from + i];
      }
    }
  }

  class GuestCore<M(!new)> {
    const hosted: Hosted<M>
    const dispatcher: NativeDispatcher
    var state: GuestState<M>
    ghost var crossings: seq<Crossing>

    ghost predicate Valid()
      reads this, dispatcher, dispatcher.catalog, dispatcher.catalog.epoch, dispatcher.verdicts.slots
    {
      dispatcher.Valid()
    }

    ghost function Sees(): Dispatcher
      reads this, dispatcher, dispatcher.catalog, dispatcher.catalog.epoch, dispatcher.verdicts.slots
    {
      View(dispatcher.Model())
    }

    constructor (hosted: Hosted<M>, dispatcher: NativeDispatcher, state: GuestState<M>)
      requires dispatcher.Valid()
      ensures this.hosted == hosted && this.dispatcher == dispatcher && this.state == state
      ensures Valid() && crossings == []
    {
      this.hosted, this.dispatcher, this.state := hosted, dispatcher, state;
      crossings := [];
    }

    /** What the boundary at `pc` is, by its cached verdict; a host service is then resolved. */
    method Look(pc: Word) returns (resolved: Resolution)
      requires Valid()
      modifies dispatcher.verdicts.slots
      ensures Valid() && Sees() == old(Sees()) && resolved == Resolve(Sees(), pc)
    {
      var kind := dispatcher.Classify(pc);
      if kind == ExecuteGuest {
        return GuestCode;
      }
      resolved := dispatcher.ResolveHostDispatch(pc);
    }

    /** The boundaries crossed so far are those of the run from `start`, which has come to the live state. */
    ghost predicate Along(g: Guest<M>, start: GuestState<M>, view: Dispatcher, earlier: seq<Crossing>, n: nat)
      reads this, dispatcher, dispatcher.catalog, dispatcher.catalog.epoch, dispatcher.verdicts.slots
    {
      var along :=
        && Valid() && Sees() == view && state == Iterate(g, start, n)
        && earlier <= crossings && Crossed(crossings, |earlier|, g, start, view, n);
      along
    }

    /** Crosses one boundary: the guest block, or the host service there while a dispatch is left for it. */
    method Cross(dispatches: nat, ghost start: GuestState<M>, ghost view: Dispatcher, ghost earlier: seq<Crossing>,
                 ghost g: Guest<M>, ghost n: nat) returns (step: Option<BlockStep<M>>, service: bool)
      requires g == Under(hosted, view, g.original) && Along(g, start, view, earlier, n)
      modifies this`state, this`crossings, dispatcher.verdicts.slots
      ensures service == g.service(old(state)) && (step.None? <==> service && dispatches == 0)
      ensures if step.None? then Along(g, start, view, earlier, n) && state == old(state)
              else
                && Along(g, start, view, earlier, n + 1)
                && step.value == g.block(old(state)) && state == step.value.after
    {
      var resolved := Look(state.regs.pc);
      UnderAsks(hosted, view, g.original, state, resolved);
      service := resolved.Kind() != ExecuteGuest;
      if service && dispatches == 0 {
        return None, service;
      }
      OneMoreCrossing(crossings, |earlier|, g, start, view, n, Crossing(state.regs.pc, resolved));
      step := Some(hosted.step(state, resolved));
      crossings := crossings + [Crossing(state.regs.pc, resolved)];
      state := step.value.after;
    }

    /** The executor's loop over boundaries, for one turn. */
    method RunBoundaries(returnPc: Word, budget: Budget, ghost original: Option<Word>)
      returns (reason: ExitReason, cycles: nat, ghost n: nat)
      requires Valid() && Costly(Under(hosted, Sees(), original))
      modifies this`state, this`crossings, dispatcher.verdicts.slots
      ensures Along(Under(hosted, old(Sees()), original), old(state), old(Sees()), old(crossings), n)
      ensures TurnEnd(state, reason, cycles) ==
              RunTurn(Under(hosted, old(Sees()), original), old(state), returnPc, budget)
    {
      ghost var view, start, earlier := Sees(), state, crossings;
      ghost var g := Under(hosted, view, original);
      var left := budget;
      cycles, n := 0, 0;
      while true
        invariant Along(g, start, view, earlier, n)
        invariant RunTurn(g, start, returnPc, budget) == Later(RunTurn(g, state, returnPc, left), cycles)
        decreases left.cycles, left.maxHostDispatches
      {
        if left.cycles == 0 {
          return BudgetExhausted, cycles, n;
        }
        if state.regs.pc == returnPc {
          return GuestReturn, cycles, n;
        }
        ghost var was := state;
        var crossed, service := Cross(left.maxHostDispatches, start, view, earlier, g, n);
        if crossed.None? {
          return BudgetExhausted, cycles, n;
        }
        var step := crossed.value;
        TurnAfter(g, was, returnPc, left, step, service);
        cycles, n := cycles + step.cycles, n + 1;
        if step.exit.Some? {
          return step.exit.value, cycles, n;
        }
        if step.cycles >= left.cycles {
          return BudgetExhausted, cycles, n;
        }
        left := Spent(left, step.cycles, service);
      }
    }

    method ExecuteFunction(pc: Word, returnPc: Word, budget: Budget, callerPc: Option<Word>,
                           ghost original: Option<Word>)
      returns (result: ExecutionResult, ghost n: nat)
      requires Valid() && Costly(Under(hosted, Sees(), original))
      modifies this`state, this`crossings, dispatcher.verdicts.slots
      ensures Valid() && Sees() == old(Sees())
      ensures var g := Under(hosted, Sees(), original);
              var start := At(old(state), pc);
              var end := RunTurn(g, start, returnPc, budget);
              && state == UnderCaller(end.state, callerPc)
              && result == ExecutionResult(end.reason, end.state.regs.pc, end.cycles)
              && old(crossings) <= crossings && Crossed(crossings, |old(crossings)|, g, start, Sees(), n)
    {
      state := At(state, pc);
      var reason, cycles, steps := RunBoundaries(returnPc, budget, original);
      n := steps;
      result := ExecutionResult(reason, state.regs.pc, cycles);
      state := UnderCaller(state, callerPc);
    }

    /** Runs a stretch of the original with its own override suppressed on the dispatcher, and lifts the suppression. */
    method ExecuteSuppressed(key: NativeKey, pc: Word, returnPc: Word, budget: Budget, callerPc: Option<Word>)
      returns (result: ExecutionResult, ghost n: nat)
      requires Valid() && Costly(GuestOf(hosted, Sees(), Some(key)))
      modifies this`state, this`crossings, dispatcher`suppressions, dispatcher.verdicts.slots
      ensures Valid() && Sees() == old(Sees())
      ensures var g := GuestOf(hosted, Sees(), Some(key));
              var start := At(old(state), pc);
              var end := RunTurn(g, start, returnPc, budget);
              && state == UnderCaller(end.state, callerPc)
              && result == ExecutionResult(end.reason, end.state.regs.pc, end.cycles)
              && old(crossings) <= crossings
              && Crossed(crossings, |old(crossings)|, g, start, Suppressing(Sees(), key), n)
      ensures forall i :: |old(crossings)| <= i < |crossings| ==> crossings[i].resolved != TitleOverride(key)
    {
      ghost var view := Sees();
      dispatcher.PushSuppression(key);
      assert Sees() == Suppressing(view, key);
      result, n := ExecuteFunction(pc, returnPc, budget, callerPc, Some(key.address));
      dispatcher.PopSuppression();
      assert Sees() == view;
      SuppressedKeyNeverAnswers(crossings, |old(crossings)|, GuestOf(hosted, view, Some(key)), At(old(state), pc), view,
                                n, key);
    }

    /** The first turn of a call without a key: a host service at the entry is dispatched directly. */
    method DispatchGuest(pc: Word, budget: Budget, callerPc: Option<Word>) returns (result: ExecutionResult)
      requires Valid() && Costly(GuestOf(hosted, Sees(), None))
      modifies this`state, this`crossings, dispatcher.verdicts.slots
      ensures Valid() && Sees() == old(Sees()) && old(crossings) <= crossings
      ensures var g := GuestOf(hosted, Sees(), None);
              var end := FirstRun(g, At(old(state), pc), old(state).regs.r[RA], budget);
              && state == UnderCaller(end.state, callerPc)
              && result == ExecutionResult(end.reason, end.state.regs.pc, end.cycles)
    {
      var resolved := Look(pc);
      if resolved.Kind() == ExecuteGuest {
        ghost var n;
        result, n := ExecuteFunction(pc, state.regs.r[RA], budget, callerPc, None);
        return;
      }
      var step := hosted.step(At(state, pc), resolved);
      assert step == GuestOf(hosted, Sees(), None).block(At(state, pc));
      crossings := crossings + [Crossing(pc, resolved)];
      state := UnderCaller(step.after, callerPc);
      var reason := if step.exit.Some? then step.exit.value else GuestReturn;
      result := ExecutionResult(reason, step.after.regs.pc, step.cycles);
    }

    method ExecuteFirst(original: Option<NativeKey>, entry: Word, budget: Budget, callerPc: Option<Word>)
      returns (result: ExecutionResult)
      requires Valid() && Costly(GuestOf(hosted, Sees(), original))
      modifies this`state, this`crossings, dispatcher`suppressions, dispatcher.verdicts.slots
      ensures Valid() && Sees() == old(Sees()) && old(crossings) <= crossings
      ensures var g := GuestOf(hosted, Sees(), original);
              var pc := if original.Some? then original.value.address else entry;
              var end := FirstRun(g, At(old(state), pc), old(state).regs.r[RA], budget);
              && state == UnderCaller(end.state, callerPc)
              && result == ExecutionResult(end.reason, end.state.regs.pc, end.cycles)
      ensures original.Some? ==>
                forall i :: |old(crossings)| <= i < |crossings| ==>
                  crossings[i].resolved != TitleOverride(original.value)
    {
      if original.Some? {
        ghost var n;
        result, n := ExecuteSuppressed(original.value, original.value.address, state.regs.r[RA], budget, callerPc);
      } else {
        result := DispatchGuest(entry, budget, callerPc);
      }
    }

    method ExecuteResumed(original: Option<NativeKey>, pc: Word, returnPc: Word, budget: Budget, callerPc: Option<Word>)
      returns (result: ExecutionResult)
      requires Valid() && Costly(GuestOf(hosted, Sees(), original))
      modifies this`state, this`crossings, dispatcher`suppressions, dispatcher.verdicts.slots
      ensures Valid() && Sees() == old(Sees()) && old(crossings) <= crossings
      ensures var g := GuestOf(hosted, Sees(), original);
              var end := RunTurn(g, At(old(state), pc), returnPc, budget);
              && state == UnderCaller(end.state, callerPc)
              && result == ExecutionResult(end.reason, end.state.regs.pc, end.cycles)
      ensures original.Some? ==>
                forall i :: |old(crossings)| <= i < |crossings| ==>
                  crossings[i].resolved != TitleOverride(original.value)
    {
      ghost var n;
      if original.Some? {
        result, n := ExecuteSuppressed(original.value, pc, returnPc, budget, callerPc);
      } else {
        result, n := ExecuteFunction(pc, returnPc, budget, callerPc, None);
      }
    }
  }

  class ResumableGuestCall<M(!new)> {
    var core: GuestCore?<M>
    var owner: seq<Byte>
    var entry: Word
    var returnPc: Word
    var resumePc: Word
    var turnCap: Word
    var turns: Word
    var cycles: nat
    var suspended: R3000
    var pending: bool

    ghost function Model(): GuestCall
      reads this
    {
      GuestCall(owner, entry, returnPc, resumePc, turnCap, turns, cycles, suspended, pending)
    }

    constructor (suspended: R3000)
      ensures core == null && !pending && this.suspended == suspended
    {
      core, owner, entry, returnPc, resumePc, turnCap := null, [], 0, 0, 0, 8;
      turns, cycles, this.suspended, pending := 0, 0, suspended, false;
    }

    /** Only one call at a time; beginning another over it, or at an unowned entry, aborts in the source. */
    method Begin(core: GuestCore<M>, owner: seq<Byte>, entry: Word, returnPc: Word, turnCap: Word)
      requires !pending
      modifies this, core`state
      ensures this.core == core
      ensures (Model(), core.state) == Begun(old(core.state), owner, entry, returnPc, turnCap, old(suspended))
    {
      this.core, this.owner, this.entry, this.returnPc := core, owner, entry, returnPc;
      resumePc, this.turnCap, turns, cycles, pending := entry, turnCap, 0, 0, true;
      core.state := core.state.(regs := core.state.regs.(r := core.state.regs.r[RA := returnPc]));
    }

    /** One host turn on the Core the call was begun on; with `original`, no boundary it crosses is answered by
        that key's override. A call that is not pending is refused, whether or not it was ever begun. */
    method AdvanceTurn(core: GuestCore<M>, original: Option<NativeKey>, budget: Budget, callerPc: Option<Word>)
      returns (step: CallStep)
      requires (pending ==> this.core == core) && core.Valid() && Costly(GuestOf(core.hosted, core.Sees(), original))
      modifies this, core`state, core`crossings, core.dispatcher`suppressions, core.dispatcher.verdicts.slots
      ensures this.core == old(this.core) && core.Valid() && core.Sees() == old(core.Sees())
      ensures Advanced(Model(), core.state, step) ==
              Advance(old(Model()), old(core.state), GuestOf(core.hosted, core.Sees(), original), budget, callerPc)
      ensures old(core.crossings) <= core.crossings
      ensures original.Some? ==>
                forall i :: |old(core.crossings)| <= i < |core.crossings| ==>
                  core.crossings[i].resolved != TitleOverride(original.value)
    {
      if !pending {
        return CallStep(Refused, 0, turns, cycles, BudgetExhausted);
      }
      if turnCap != 0 && turns >= turnCap {
        return CallStep(Refused, resumePc, turns, cycles, BudgetExhausted);
      }
      var result: ExecutionResult;
      if turns == 0 {
        result := core.ExecuteFirst(original, entry, budget, callerPc);
      } else {
        core.state := core.state.(regs := suspended);
        result := core.ExecuteResumed(original, resumePc, returnPc, budget, callerPc);
      }
      step := Classify(result, core.state);
    }

    method Classify(result: ExecutionResult, after: GuestState<M>) returns (step: CallStep)
      modifies this`cycles, this`turns, this`pending, this`resumePc, this`suspended
      ensures Advanced(Model(), after, step) ==
              AfterTurn(old(Model()), after, result.reason, result.guestPc, result.cycles)
    {
      cycles := cycles + result.cycles;
      turns := (turns + 1) % 0x1_0000_0000;
      if result.Returned() {
        pending := false;
        return CallStep(Returned(after.regs.r[V0]), result.guestPc, turns, cycles, result.reason);
      }
      if !Suspends(result.reason) || (result.reason == BudgetExhausted && result.cycles == 0) {
        return CallStep(Refused, result.guestPc, turns, cycles, result.reason);
      }
      resumePc, suspended := result.guestPc, after.regs;
      return CallStep(Suspended, result.guestPc, turns, cycles, result.reason);
    }

    /** False with nothing changed when the bytes do not decode. */
    method LoadFrom(core: GuestCore<M>, r: Reader) returns (ok: bool, after: Reader)
      requires r.Valid()
      modifies this
      ensures ok <==> Load(r).Some?
      ensures if ok then (Model(), after) == Load(r).value && this.core == core
              else Model() == old(Model()) && this.core == old(this.core)
    {
      var loaded := Load(r);
      if loaded.None? {
        return false, r;
      }
      var call := loaded.value.0;
      this.core := core;
      owner, entry, returnPc, resumePc := call.owner, call.entry, call.returnPc, call.resumePc;
      turnCap, turns, cycles, suspended, pending := call.turnCap, call.turns, call.cycles, call.suspended, call.pending;
      return true, loaded.value.1;
    }
  }

  const RESUME_TO_EXIT_TURNS: Word := 65

  /** A step that asks for nothing, or only for what the resuming goes on from. */
  predicate Passes<M>(step: BlockStep<M>) {
    step.exit.None? || step.exit == Some(BudgetExhausted)
  }

  /** Every step before the n-th passed, and so did that one unless it asked for the exit given; an exit that is neither
      a return nor an exhausted budget was asked for. */
  ghost predicate StopsAtFirst<M>(g: Guest<M>, s: GuestState<M>, n: nat, reason: ExitReason) {
    && (forall k :: 0 <= k < n ==>
          var step := g.block(Iterate(g, s, k));
          Passes(step) || (k == n - 1 && step.exit == Some(reason)))
    && (reason != GuestReturn && reason != BudgetExhausted ==>
          n > 0 && g.block(Iterate(g, s, n - 1)).exit == Some(reason))
  }

  /** The resuming gave up at step n: at its turn cap, every turn so far having moved the run, or at a turn that was
      charged nothing. */
  ghost predicate GaveUp<M>(g: Guest<M>, start: GuestState<M>, n: nat, turns: nat, budgets: nat -> Budget) {
    || turns == RESUME_TO_EXIT_TURNS <= n
    || (turns > 0 && StalledTurn(g, start, n, budgets(turns - 1)))
  }

  /** A turn with this budget had started somewhere in the run and was charged nothing by step n. */
  ghost predicate StalledTurn<M>(g: Guest<M>, start: GuestState<M>, n: nat, budget: Budget) {
    exists k :: 0 <= k <= n && Stalled(g, start, k, n, budget)
  }

  lemma {:induction false} GivingUpIsExplained<M>(g: Guest<M>, start: GuestState<M>, n: nat, turns: nat,
                                                  budgets: nat -> Budget)
    requires GaveUp(g, start, n, turns, budgets) && n < RESUME_TO_EXIT_TURNS
    ensures turns > 0 && (Starves(budgets(turns - 1), n) || RefusedBy(g, start, n, BudgetExhausted))
  {
    var k :| 0 <= k <= n && Stalled(g, start, k, n, budgets(turns - 1));
    StallStarves(g, start, k, n, budgets(turns - 1));
  }

  /** A call being resumed to its exit, n steps into the unsliced run, whatever its last turn came to. */
  ghost predicate Tracks<M>(a: Advanced<M>, g: Guest<M>, start: GuestState<M>, returnPc: Word, n: nat,
                            budgets: nat -> Budget) {
    && a.step.cycles == CyclesOf(g, start, n) && Onward(g, start, returnPc, n)
    && At(a.core, a.step.guestPc) == Iterate(g, start, n) && StopsAtFirst(g, start, n, a.step.reason)
    && match a.step.outcome
       case Returned(_) => a.step.guestPc == returnPc && a.step.reason == GuestReturn
       case Suspended => StandsAt(a.call, a.core.memory, g, start, n) && n >= a.call.turns &&
                         a.step.reason != GuestReturn
       case Refused => a.step.reason != GuestReturn &&
                       (a.step.reason == BudgetExhausted ==> GaveUp(g, start, n, a.call.turns, budgets))
  }

  lemma {:induction false} FirstTurnTracks<M(!new)>(call: GuestCall, core: GuestState<M>, g: Guest<M>,
                                                    budgets: nat -> Budget) returns (n: nat)
    requires Sincere(g) && call.pending && call.turns == 0 && call.cycles == 0
    requires core.regs.r[RA] == call.returnPc && Runs(call)
    ensures Tracks(Advance(call, core, g, budgets(0), None), g, At(core, FirstPc(call, g)), call.returnPc, n, budgets)
    ensures Advance(call, core, g, budgets(0), None).call.turns == 1
  {
    n := FirstTurn(call, core, g, budgets(0), None);
  }

  lemma {:induction false} StopsJoin<M>(g: Guest<M>, s: GuestState<M>, k: nat, n: nat, reason: ExitReason)
    requires k <= n && StopsAtFirst(g, s, k, BudgetExhausted) && AsksOnlyToEnd(g, s, k, n, reason)
    ensures StopsAtFirst(g, s, n, reason)
  {
  }

  lemma {:induction false} LaterTurnTracks<M(!new)>(before: Advanced<M>, g: Guest<M>, start: GuestState<M>,
                                                    budgets: nat -> Budget, k: nat) returns (n: nat)
    requires Sincere(g) && 0 < before.call.turns <= before.call.turnCap == RESUME_TO_EXIT_TURNS
    requires Tracks(before, g, start, before.call.returnPc, k, budgets)
    requires before.step.outcome == Suspended && before.step.reason == BudgetExhausted
    ensures Tracks(Advance(before.call, before.core, g, budgets(before.call.turns), None), g, start,
                   before.call.returnPc, n, budgets)
    ensures Advance(before.call, before.core, g, budgets(before.call.turns), None).call.turns ==
            if Runs(before.call) then before.call.turns + 1 else before.call.turns
  {
    n := k;
    if Runs(before.call) {
      var budget := budgets(before.call.turns);
      n := LaterTurn(before.call, before.core, g, start, k, budget, None);
      StopsJoin(g, start, k, n, Advance(before.call, before.core, g, budget, None).step.reason);
    } else {
      assert before.call.resumePc == Iterate(g, start, k).regs.pc;
    }
  }

  /** A call of the original behind `key` after some turn: it tracks the run, and no boundary crossed since `earlier`
      was answered by its override. */
  ghost predicate Following<M(!new)>(call: ResumableGuestCall<M>, core: GuestCore<M>, key: NativeKey, step: CallStep,
                                     g: Guest<M>, start: GuestState<M>, earlier: seq<Crossing>, n: nat,
                                     budgets: nat -> Budget)
    reads call, core, core.dispatcher, core.dispatcher.catalog, core.dispatcher.catalog.epoch,
          core.dispatcher.verdicts.slots
  {
    && call.core == core && core.Valid() && g == GuestOf(core.hosted, core.Sees(), Some(key)) && Sincere(g)
    && 0 < call.turns <= call.turnCap == RESUME_TO_EXIT_TURNS
    && earlier <= core.crossings && NoneAnsweredBy(core.crossings, |earlier|, key)
    && Tracks(Advanced(call.Model(), core.state, step), g, start, call.returnPc, n, budgets)
  }

  ghost predicate NoneAnsweredBy(crossings: seq<Crossing>, from: nat, key: NativeKey) {
    forall i :: from <= i < |crossings| ==> crossings[i].resolved != TitleOverride(key)
  }

  method BeginOriginal<M(!new)>(call: ResumableGuestCall<M>, core: GuestCore<M>, key: NativeKey,
                                budgets: nat -> Budget) returns (step: CallStep, ghost n: nat)
    requires !call.pending && core.Valid() && Sincere(GuestOf(core.hosted, core.Sees(), Some(key)))
    modifies call, core`state, core`crossings, core.dispatcher`suppressions, core.dispatcher.verdicts.slots
    ensures core.Sees() == old(core.Sees()) && call.turns == 1 && call.returnPc == old(core.state).regs.r[RA]
    ensures Following(call, core, key, step, GuestOf(core.hosted, old(core.Sees()), Some(key)),
                      At(old(core.state), key.address), old(core.crossings), n, budgets)
  {
    call.Begin(core, [], key.address, core.state.regs.r[RA], RESUME_TO_EXIT_TURNS);
    assert core.state == old(core.state);
    n := FirstTurnTracks(call.Model(), core.state, GuestOf(core.hosted, core.Sees(), Some(key)), budgets);
    step := call.AdvanceTurn(core, Some(key), budgets(0), None);
  }

  method ResumeOriginal<M(!new)>(call: ResumableGuestCall<M>, core: GuestCore<M>, key: NativeKey,
                                 budgets: nat -> Budget, before: CallStep, ghost g: Guest<M>,
                                 ghost start: GuestState<M>, ghost earlier: seq<Crossing>, ghost k: nat)
    returns (step: CallStep, ghost n: nat)
    requires Following(call, core, key, before, g, start, earlier, k, budgets)
    requires before.outcome == Suspended && before.reason == BudgetExhausted
    modifies call, core`state, core`crossings, core.dispatcher`suppressions, core.dispatcher.verdicts.slots
    ensures core.Sees() == old(core.Sees()) && call.returnPc == old(call.returnPc)
    ensures Following(call, core, key, step, g, start, earlier, n, budgets)
    ensures call.turns == old(call.turns) + 1 || step.outcome != Suspended
  {
    n := LaterTurnTracks(Advanced(call.Model(), core.state, before), g, start, budgets, k);
    step := call.AdvanceTurn(core, Some(key), budgets(call.turns), None);
  }

  /** How resuming a call to its exit came out: at step n of the unsliced run, the first that is the return address or
      asks for an exit other than an exhausted budget, unless it gave up before. */
  ghost predicate ExitedAs<M>(result: ExecutionResult, core: GuestState<M>, turns: nat, g: Guest<M>,
                              start: GuestState<M>, returnPc: Word, n: nat, budgets: nat -> Budget) {
    && result.cycles == CyclesOf(g, start, n) && NotYetReturned(g, start, returnPc, n)
    && At(core, result.guestPc) == Iterate(g, start, n) && StopsAtFirst(g, start, n, result.reason)
    && (result.reason == GuestReturn ==> result.guestPc == returnPc)
    && (result.reason == BudgetExhausted ==> GaveUp(g, start, n, turns, budgets))
  }

  /** The unsliced run comes to its return address after m steps, none of which asks for an exit. */
  ghost predicate ReturnsAfter<M>(g: Guest<M>, start: GuestState<M>, returnPc: Word, m: nat) {
    && NotYetReturned(g, start, returnPc, m) && Iterate(g, start, m).regs.pc == returnPc
    && forall k :: 0 <= k < m ==> g.block(Iterate(g, start, k)).exit.None?
  }

  /** A run that returns within as many steps as there are turns to resume it in is resumed to that return, whenever
      every turn has cycles and more dispatches than it has steps. */
  lemma {:induction false} ResumedToItsReturn<M>(result: ExecutionResult, core: GuestState<M>, turns: nat, g: Guest<M>,
      start: GuestState<M>, returnPc: Word, n: nat, budgets: nat -> Budget, m: nat)
    requires ExitedAs(result, core, turns, g, start, returnPc, n, budgets)
    requires ReturnsAfter(g, start, returnPc, m) && m < 65 && forall i :: 0 <= i < 65 ==> !Starves(budgets(i), m)
    requires turns <= 65
    ensures result == ExecutionResult(GuestReturn, returnPc, CyclesOf(g, start, m)) && n == m
  {
    if result.reason == BudgetExhausted {
      GivingUpIsExplained(g, start, n, turns, budgets);
    }
  }

  /** Runs an original to its exit, resuming while a turn only ran out of budget. It ends within 65 turns at a point of
      the unsliced run under its own suppression, a return at that run's first arrival at the caller; no boundary it
      crossed on any segment was answered by its override, and the dispatcher sees afterwards what it saw before. An
      exhausted budget is reported only once the turns are used up or a turn was charged nothing. */
  method CallOriginalResumingToExit<M(!new)>(core: GuestCore<M>, key: NativeKey, budgets: nat -> Budget,
                                             suspended: R3000)
    returns (result: ExecutionResult, ghost n: nat, ghost turns: nat)
    requires core.Valid() && Sincere(GuestOf(core.hosted, core.Sees(), Some(key)))
    modifies core`state, core`crossings, core.dispatcher`suppressions, core.dispatcher.verdicts.slots
    ensures core.Valid() && core.Sees() == old(core.Sees()) && turns <= 65
    ensures old(core.crossings) <= core.crossings && NoneAnsweredBy(core.crossings, |old(core.crossings)|, key)
    ensures var g := GuestOf(core.hosted, core.Sees(), Some(key));
            var returnPc := old(core.state).regs.r[RA];
            var start := At(old(core.state), key.address);
            && ExitedAs(result, core.state, turns, g, start, returnPc, n, budgets)
            && forall m: nat :: m < 65 && ReturnsAfter(g, start, returnPc, m) &&
                                (forall i :: 0 <= i < 65 ==> !Starves(budgets(i), m)) ==>
                 result == ExecutionResult(GuestReturn, returnPc, CyclesOf(g, start, m)) && n == m
  {
    var call := new ResumableGuestCall<M>(suspended);
    ghost var g := GuestOf(core.hosted, core.Sees(), Some(key));
    ghost var start, earlier, returnPc := At(core.state, key.address), core.crossings, core.state.regs.r[RA];
    var step;
    step, n := BeginOriginal(call, core, key, budgets);
    while step.outcome == Suspended && step.reason == BudgetExhausted
      invariant Following(call, core, key, step, g, start, earlier, n, budgets)
      invariant core.Sees() == old(core.Sees()) && call.returnPc == returnPc
      decreases if step.outcome == Suspended then 1 else 0, 65 - call.turns
    {
      step, n := ResumeOriginal(call, core, key, budgets, step, g, start, earlier, n);
    }
    turns := call.turns;
    result := ExecutionResult(if step.outcome.Returned? then GuestReturn else step.reason, step.guestPc, step.cycles);
    forall m: nat | m < 65 && ReturnsAfter(g, start, returnPc, m) && forall i :: 0 <= i < 65 ==> !Starves(budgets(i), m)
      ensures result == ExecutionResult(GuestReturn, returnPc, CyclesOf(g, start, m)) && n == m
    {
      ResumedToItsReturn(result, core.state, turns, g, start, returnPc, n, budgets, m);
    }
  }
}
