/** Turning a segment's cycle counter into guest time, piece by piece, without losing or inventing an instruction. */
module SegmentClocks {
  import opened GuestTypes

  const CYCLES_PER_INSTRUCTION := 2

  /** The counter at the last commit, the odd cycle left over, and the sum of the commits. */
  datatype Ledger = Ledger(charged: Word, carried: nat, committed: nat)

  const NEW_SEGMENT := Ledger(0, 0, 0)

  /** A rise is halved with the odd cycle carried on; a fall is believed and charges nothing. */
  function CommitThrough(ledger: Ledger, cycle: Word): Ledger {
    if cycle <= ledger.charged then ledger.(charged := cycle)
    else
      var cycles := (cycle - ledger.charged) + ledger.carried;
      Ledger(cycle, cycles % CYCLES_PER_INSTRUCTION, ledger.committed + cycles / CYCLES_PER_INSTRUCTION)
  }

  function CommitAll(ledger: Ledger, cycles: seq<Word>): Ledger {
    if |cycles| == 0 then ledger else CommitThrough(CommitAll(ledger, cycles[..|cycles| - 1]), cycles[|cycles| - 1])
  }

  /** What the end of the segment still has to charge; nothing, if the commits already reach the count. */
  function Uncommitted(ledger: Ledger, instructions: nat): nat {
    if instructions > ledger.committed then instructions - ledger.committed else 0
  }

  /** How far the counter rose in all, not counting the falls. */
  function TotalRise(from: Word, cycles: seq<Word>): nat {
    if |cycles| == 0 then 0
    else
      var before := if |cycles| == 1 then from else cycles[|cycles| - 2];
      TotalRise(from, cycles[..|cycles| - 1]) +
      if cycles[|cycles| - 1] > before then cycles[|cycles| - 1] - before else 0
  }

  /** Whatever accesses a segment made, its commits are half the counter's total rise, the odd cycle carried. */
  lemma {:induction false} CommitsAreHalfTheRise(cycles: seq<Word>)
    ensures var ledger := CommitAll(NEW_SEGMENT, cycles);
            && ledger.charged == (if |cycles| == 0 then 0 else cycles[|cycles| - 1])
            && ledger.carried < 2
            && 2 * ledger.committed + ledger.carried == TotalRise(0, cycles)
  {
    if |cycles| > 0 {
      CommitsAreHalfTheRise(cycles[..|cycles| - 1]);
    }
  }

  lemma {:induction false} SteadyRise(cycles: seq<Word>)
    requires forall i, j :: 0 <= i <= j < |cycles| ==> cycles[i] <= cycles[j]
    ensures TotalRise(0, cycles) == if |cycles| == 0 then 0 else cycles[|cycles| - 1]
  {
    if |cycles| > 0 {
      SteadyRise(cycles[..|cycles| - 1]);
    }
  }

  /** Commits and remainder charge a segment its exact instruction count exactly when the counter did not rise by
      more than two cycles an instruction, rounded up to the next commit; any excess is charged on top. */
  lemma SegmentChargedExactlyIff(cycles: seq<Word>, instructions: nat)
    ensures var ledger := CommitAll(NEW_SEGMENT, cycles);
            var charged := ledger.committed + Uncommitted(ledger, instructions);
            && (charged == instructions <==> TotalRise(0, cycles) <= 2 * instructions + 1)
            && charged == (if ledger.committed > instructions then ledger.committed else instructions)
  {
    CommitsAreHalfTheRise(cycles);
  }

  /** One access seen at cycle 4 of a segment of one instruction charges it two. */
  lemma OneInstructionChargedTwice(cycles: seq<Word>)
    requires cycles == [4]
    ensures var ledger := CommitAll(NEW_SEGMENT, cycles);
            ledger.committed + Uncommitted(ledger, 1) == 2
  {
    CommitsAreHalfTheRise(cycles);
    assert cycles[..0] == [] && TotalRise(0, cycles[..0]) == 0;
    assert TotalRise(0, cycles) == 4;
  }

  /** On a counter that never falls and stays within two cycles an instruction, the charge is the instruction count,
      however many accesses were made and wherever they fell. */
  lemma SteadySegmentChargedExactly(cycles: seq<Word>, instructions: nat)
    requires forall i, j :: 0 <= i <= j < |cycles| ==> cycles[i] <= cycles[j]
    requires forall i :: 0 <= i < |cycles| ==> cycles[i] <= 2 * instructions
    ensures var ledger := CommitAll(NEW_SEGMENT, cycles);
            ledger.committed + Uncommitted(ledger, instructions) == instructions
  {
    SteadyRise(cycles);
    SegmentChargedExactlyIff(cycles, instructions);
  }

  class SegmentClockLedger {
    var chargedThroughCycles: Word
    var pendingCycles: nat
    var committedInstructions: nat

    ghost function Model(): Ledger
      reads this
    {
      Ledger(chargedThroughCycles, pendingCycles, committedInstructions)
    }

    constructor ()
      ensures Model() == NEW_SEGMENT
    {
      chargedThroughCycles, pendingCycles, committedInstructions := 0, 0, 0;
    }

    method BeginSegment()
      modifies this
      ensures Model() == NEW_SEGMENT
    {
      chargedThroughCycles, pendingCycles, committedInstructions := 0, 0, 0;
    }

    method Commit(currentCycle: Word) returns (instructions: nat)
      modifies this
      ensures Model() == CommitThrough(old(Model()), currentCycle)
      ensures instructions == committedInstructions - old(committedInstructions)
    {
      if currentCycle <= chargedThroughCycles {
        chargedThroughCycles := currentCycle;
        return 0;
      }
      var cycles := (currentCycle - chargedThroughCycles) + pendingCycles;
      chargedThroughCycles := currentCycle;
      instructions := cycles / CYCLES_PER_INSTRUCTION;
      pendingCycles := cycles % CYCLES_PER_INSTRUCTION;
      committedInstructions := committedInstructions + instructions;
    }
  }
}
