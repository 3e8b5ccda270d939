/** Machine states as values, the scan that finds where two memories differ, and the restore that rewrites no other
    byte. */
module MachineSnapshots {
  import opened GuestTypes

  const ZERO := 0
  const SP := 29
  const RA := 31
  const COP0_STATUS := 12

  /** A captured machine. `gteRest` is the GTE state outside the 64 registers: its flags and FIFO places. */
  datatype MachineState = MachineState(
    gpr: seq<Word>,
    hi: Word,
    lo: Word,
    pc: Word,
    cop0: seq<Word>,
    gte: seq<Word>,
    gteRest: seq<real>,
    ram: seq<Byte>,
    scratchpad: seq<Byte>)
  {
    predicate Shaped() {
      && |gpr| == 32 && |cop0| == 16 && |gte| == 64
      && |ram| == MAIN_RAM_BYTES && |scratchpad| == SCRATCHPAD_BYTES
    }
  }

  type Machine = m: MachineState | m.Shaped()
    witness MachineState(seq(32, _ => 0), 0, 0, 0, seq(16, _ => 0), seq(64, _ => 0), [],
                         seq(MAIN_RAM_BYTES, _ => 0), seq(SCRATCHPAD_BYTES, _ => 0))

  /** What a restore leaves: the captured machine with the hardwired zero register re-established. */
  function Restored(saved: Machine): Machine {
    saved.(gpr := saved.gpr[ZERO := 0])
  }

  // ---- maximal differing runs ------------------------------------------------------------------------

  datatype Run = Run(begin: nat, end: nat)

  ghost predicate InSomeRun(runs: seq<Run>, k: int) {
    exists i :: 0 <= i < |runs| && runs[i].begin <= k < runs[i].end
  }

  /** Nonempty runs inside [0,n), ascending, with an equal byte between neighbours. */
  ghost predicate Ascending(runs: seq<Run>, n: nat) {
    && (forall i :: 0 <= i < |runs| ==> runs[i].begin < runs[i].end <= n)
    && (forall i, j :: 0 <= i < j < |runs| ==> runs[i].end < runs[j].begin)
  }

  /** The runs are maximal and hold exactly the positions below n at which the two memories differ. */
  ghost predicate ExactRuns(a: seq<Byte>, b: seq<Byte>, n: nat, runs: seq<Run>)
    requires n <= |a| && n <= |b|
  {
    && Ascending(runs, n)
    && (forall k :: 0 <= k < n ==> (a[k] != b[k] <==> InSomeRun(runs, k)))
  }

  ghost function DifferingBytes(a: seq<Byte>, b: seq<Byte>, n: nat): set<int>
    requires n <= |a| && n <= |b|
  {
    set k | 0 <= k < n && a[k] != b[k]
  }

  function TotalLength(runs: seq<Run>): int {
    if |runs| == 0 then 0 else TotalLength(runs[..|runs| - 1]) + runs[|runs| - 1].end - runs[|runs| - 1].begin
  }

  /** The two memories determine the list of maximal runs: no other list has their properties. */
  lemma ExactRunsAreUnique(a: seq<Byte>, b: seq<Byte>, n: nat, r: seq<Run>, s: seq<Run>)
    requires n <= |a| && n <= |b| && ExactRuns(a, b, n, r) && ExactRuns(a, b, n, s)
    ensures r == s
  {
    var k := 0;
    while k < |r| && k < |s|
      invariant 0 <= k <= |r| && k <= |s| && r[..k] == s[..k]
    {
      NextBegin(a, b, n, r, s, k);
      NextBegin(a, b, n, s, r, k);
      NextEnd(a, b, n, r, s, k);
      NextEnd(a, b, n, s, r, k);
      assert r[..k + 1] == r[..k] + [r[k]] && s[..k + 1] == s[..k] + [s[k]];
      k := k + 1;
    }
    if k < |r| {
      NextBegin(a, b, n, r, s, k);
    } else if k < |s| {
      NextBegin(a, b, n, s, r, k);
    }
  }

  lemma NextBegin(a: seq<Byte>, b: seq<Byte>, n: nat, r: seq<Run>, s: seq<Run>, k: nat)
    requires n <= |a| && n <= |b| && ExactRuns(a, b, n, r) && ExactRuns(a, b, n, s)
    requires k < |r| && k <= |s| && r[..k] == s[..k]
    ensures k < |s| && s[k].begin <= r[k].begin
  {
    var at := r[k].begin;
    assert InSomeRun(r, at);
    assert a[at] != b[at];
    var i :| 0 <= i < |s| && s[i].begin <= at < s[i].end;
    assert forall m :: 0 <= m < k ==> s[m] == s[..k][m] == r[..k][m] == r[m];
    assert k <= i;
  }

  lemma NextEnd(a: seq<Byte>, b: seq<Byte>, n: nat, r: seq<Run>, s: seq<Run>, k: nat)
    requires n <= |a| && n <= |b| && ExactRuns(a, b, n, r) && ExactRuns(a, b, n, s)
    requires k < |r| && k < |s| && r[k].begin == s[k].begin
    ensures r[k].end <= s[k].end
  {
    if s[k].end < r[k].end {
      var at := s[k].end;
      assert InSomeRun(r, at);
    }
  }

  predicate Between(lo: int, k: int, hi: int) {
    lo <= k < hi
  }

  ghost function Interval(lo: int, hi: int): set<int> {
    set k | lo <= k < hi && Between(lo, k, hi)
  }

  lemma {:induction false} IntervalSize(lo: int, hi: int)
    requires lo <= hi
    ensures |Interval(lo, hi)| == hi - lo
    decreases hi - lo
  {
    if lo < hi {
      IntervalSize(lo, hi - 1);
      assert Interval(lo, hi) == Interval(lo, hi - 1) + {hi - 1};
    }
  }

  ghost function BytesOf(runs: seq<Run>): set<int> {
    if |runs| == 0 then {} else BytesOf(runs[..|runs| - 1]) + Interval(runs[|runs| - 1].begin, runs[|runs| - 1].end)
  }

  lemma {:induction false} BytesOfMeaning(runs: seq<Run>)
    ensures forall k :: k in BytesOf(runs) <==> InSomeRun(runs, k)
  {
    if |runs| > 0 {
      var init, last := runs[..|runs| - 1], runs[|runs| - 1];
      BytesOfMeaning(init);
      forall k ensures InSomeRun(runs, k) <==> InSomeRun(init, k) || last.begin <= k < last.end {
        if last.begin <= k < last.end {
          assert runs[|init|] == last;
        }
        if InSomeRun(init, k) {
          var i := RunHolding(init, k);
          assert runs[i] == init[i];
        }
        if InSomeRun(runs, k) {
          var i := RunHolding(runs, k);
          assert i < |init| ==> init[i] == runs[i];
        }
      }
    }
  }

  lemma {:induction false} BytesOfCount(runs: seq<Run>, n: nat)
    requires Ascending(runs, n)
    ensures |BytesOf(runs)| == TotalLength(runs)
  {
    if |runs| > 0 {
      var init, last := runs[..|runs| - 1], runs[|runs| - 1];
      BytesOfCount(init, n);
      BytesOfMeaning(init);
      IntervalSize(last.begin, last.end);
      assert BytesOf(init) !! Interval(last.begin, last.end);
    }
  }

  /** The run lengths add up to the number of differing bytes. */
  lemma RunsCountDifferingBytes(a: seq<Byte>, b: seq<Byte>, n: nat, runs: seq<Run>)
    requires n <= |a| && n <= |b| && ExactRuns(a, b, n, runs)
    ensures TotalLength(runs) == |DifferingBytes(a, b, n)|
  {
    BytesOfCount(runs, n);
    BytesOfMeaning(runs);
    assert DifferingBytes(a, b, n) == BytesOf(runs);
  }

  const SKIP_CHUNK := 64

  /** The scan, which steps over 64 equal bytes at a time between runs. */
  method DifferingRuns(a: seq<Byte>, b: seq<Byte>) returns (runs: seq<Run>)
    ensures ExactRuns(a, b, if |a| < |b| then |a| else |b|, runs)
  {
    var size := if |a| < |b| then |a| else |b|;
    runs := [];
    var index := 0;
    while index < size
      invariant 0 <= index <= size
      invariant ExactRuns(a, b, index, runs)
      invariant |runs| > 0 && runs[|runs| - 1].end == index && index < size ==> a[index] == b[index]
    {
      ghost var before := index;
      if index + SKIP_CHUNK <= size && a[index..index + SKIP_CHUNK] == b[index..index + SKIP_CHUNK] {
        assert forall k :: index <= k < index + SKIP_CHUNK ==>
            a[k] == a[index..index + SKIP_CHUNK][k - index] == b[index..index + SKIP_CHUNK][k - index] == b[k];
        index := index + SKIP_CHUNK;
        EqualStretch(a, b, before, index, runs);
      } else if a[index] == b[index] {
        index := index + 1;
        EqualStretch(a, b, before, index, runs);
      } else {
        var begin := index;
        while index < size && a[index] != b[index]
          invariant begin <= index <= size
          invariant forall k :: begin <= k < index ==> a[k] != b[k]
        {
          index := index + 1;
        }
        NewRun(a, b, begin, index, runs);
        runs := runs + [Run(begin, index)];
      }
    }
  }

  lemma EqualStretch(a: seq<Byte>, b: seq<Byte>, from: nat, to: nat, runs: seq<Run>)
    requires from <= to <= |a| && to <= |b| && ExactRuns(a, b, from, runs)
    requires forall k :: from <= k < to ==> a[k] == b[k]
    ensures ExactRuns(a, b, to, runs)
  {
  }

  lemma NewRun(a: seq<Byte>, b: seq<Byte>, begin: nat, end: nat, runs: seq<Run>)
    requires begin < end <= |a| && end <= |b| && ExactRuns(a, b, begin, runs)
    requires forall k :: begin <= k < end ==> a[k] != b[k]
    requires |runs| > 0 ==> runs[|runs| - 1].end < begin
    ensures ExactRuns(a, b, end, runs + [Run(begin, end)])
  {
    var grown := runs + [Run(begin, end)];
    forall k | 0 <= k < end
      ensures a[k] != b[k] <==> InSomeRun(grown, k)
    {
      if k >= begin {
        assert grown[|runs|].begin <= k < grown[|runs|].end;
      } else {
        if InSomeRun(runs, k) {
          var i :| 0 <= i < |runs| && runs[i].begin <= k < runs[i].end;
          assert grown[i] == runs[i];
        }
        if InSomeRun(grown, k) {
          var i :| 0 <= i < |grown| && grown[i].begin <= k < grown[i].end;
          assert runs[i] == grown[i];
        }
      }
    }
  }

  // ---- restore in place ------------------------------------------------------------------------------

  predicate Fit(base: Word, runs: seq<Run>) {
    forall i :: 0 <= i < |runs| ==> base + runs[i].begin < 0x1_0000_0000 && base + runs[i].end < 0x1_0000_0000
  }

  /** The runs as physical ranges above `base`. */
  function AsRanges(base: Word, runs: seq<Run>): seq<Range>
    requires Fit(base, runs)
  {
    seq(|runs|, i requires 0 <= i < |runs| => Range(base + runs[i].begin, base + runs[i].end))
  }

  /** How far the bytes from `index` are the same in both, one chunk or one byte at a time; 0 at a difference. */
  method EqualAhead(live: array<Byte>, saved: seq<Byte>, index: nat) returns (skip: nat)
    requires index < live.Length == |saved|
    ensures index + skip <= live.Length
    ensures forall k :: index <= k < index + skip ==> live[k] == saved[k]
    ensures skip == 0 <==> live[index] != saved[index]
  {
    if index + SKIP_CHUNK <= live.Length && live[index..index + SKIP_CHUNK] == saved[index..index + SKIP_CHUNK] {
      assert forall k :: index <= k < index + SKIP_CHUNK ==>
          live[k] == live[index..index + SKIP_CHUNK][k - index] == saved[index..index + SKIP_CHUNK][k - index] ==
          saved[k];
      return SKIP_CHUNK;
    }
    return if live[index] == saved[index] then 1 else 0;
  }

  method RunEnd(live: array<Byte>, saved: seq<Byte>, begin: nat) returns (end: nat)
    requires begin < live.Length == |saved| && live[begin] != saved[begin]
    ensures begin < end <= live.Length
    ensures forall k :: begin <= k < end ==> live[k] != saved[k]
    ensures end < live.Length ==> live[end] == saved[end]
  {
    end := begin + 1;
    while end < live.Length && live[end] != saved[end]
      invariant begin < end <= live.Length
      invariant forall k :: begin <= k < end ==> live[k] != saved[k]
    {
      end := end + 1;
    }
  }

  /** The scan has reached `index`, just past any run it found, with `notified` and `written` reporting the runs. */
  ghost predicate Scanned(a: seq<Byte>, b: seq<Byte>, base: Word, index: nat, runs: seq<Run>, notified: seq<Range>,
                          written: int)
    requires |a| == |b| && base + |b| < 0x1_0000_0000
  {
    && index <= |b| && ExactRuns(a, b, index, runs)
    && (|runs| > 0 && runs[|runs| - 1].end == index && index < |b| ==> a[index] == b[index])
    && Fit(base, runs) && notified == AsRanges(base, runs) && written == TotalLength(runs)
  }

  lemma OneMoreRun(base: Word, runs: seq<Run>, run: Run)
    requires Fit(base, runs) && base + run.begin < 0x1_0000_0000 && base + run.end < 0x1_0000_0000
    ensures Fit(base, runs + [run])
    ensures AsRanges(base, runs + [run]) == AsRanges(base, runs) + [Range(base + run.begin, base + run.end)]
    ensures TotalLength(runs + [run]) == TotalLength(runs) + run.end - run.begin
  {
    assert (runs + [run])[..|runs|] == runs;
  }

  lemma ScannedRun(a: seq<Byte>, b: seq<Byte>, base: Word, begin: nat, end: nat, runs: seq<Run>, notified: seq<Range>,
                   written: int)
    requires |a| == |b| && base + |b| < 0x1_0000_0000 && Scanned(a, b, base, begin, runs, notified, written)
    requires begin < end <= |b| && (forall k :: begin <= k < end ==> a[k] != b[k]) && (end < |b| ==> a[end] == b[end])
    ensures Scanned(a, b, base, end, runs + [Run(begin, end)], notified + [Range(base + begin, base + end)],
                    written + end - begin)
  {
    NewRun(a, b, begin, end, runs);
    OneMoreRun(base, runs, Run(begin, end));
  }

  /** Rewrites exactly the differing bytes while scanning them; each rewritten run is notified once, in order. */
  method RestoreRegion(live: array<Byte>, saved: seq<Byte>, base: Word)
    returns (notified: seq<Range>, ghost runs: seq<Run>, written: nat)
    requires live.Length == |saved| && base + |saved| < 0x1_0000_0000
    modifies live
    ensures live[..] == saved
    ensures ExactRuns(old(live[..]), saved, |saved|, runs)
    ensures Fit(base, runs) && notified == AsRanges(base, runs)
    ensures written == |DifferingBytes(old(live[..]), saved, |saved|)|
  {
    ghost var was := live[..];
    notified, runs, written := [], [], 0;
    var index := 0;
    while index < |saved|
      invariant 0 <= index <= |saved|
      invariant Scanned(was, saved, base, index, runs, notified, written)
      invariant forall k :: 0 <= k < index ==> live[k] == saved[k]
      invariant forall k :: index <= k < |saved| ==> live[k] == was[k]
    {
      var skip := EqualAhead(live, saved, index);
      if skip > 0 {
        EqualStretch(was, saved, index, index + skip, runs);
        index := index + skip;
      } else {
        var end := RunEnd(live, saved, index);
        ScannedRun(was, saved, base, index, end, runs, notified, written);
        CopyBytes(live, saved, index, end);
        written := written + (end - index);
        runs := runs + [Run(index, end)];
        notified := notified + [Range(base + index, base + end)];
        index := end;
      }
    }
    RunsCountDifferingBytes(was, saved, |saved|, runs);
  }

  method CopyBytes(live: array<Byte>, saved: seq<Byte>, begin: nat, end: nat)
    requires begin <= end <= live.Length == |saved|
    modifies live
    ensures forall k :: 0 <= k < live.Length ==> live[k] == if begin <= k < end then saved[k] else old(live[k])
  {
    forall k | begin <= k < end {
      live[k] := saved[k];
    }
  }

  class Cpu {
    var gpr: seq<Word>
    var hi: Word
    var lo: Word
    var pc: Word
    var cop0: seq<Word>
    var gte: seq<Word>
    var gteRest: seq<real>
    const ram: array<Byte>
    const scratch: array<Byte>

    ghost predicate Valid()
      reads this
    {
      && |gpr| == 32 && |cop0| == 16 && |gte| == 64
      && ram.Length == MAIN_RAM_BYTES && scratch.Length == SCRATCHPAD_BYTES && ram != scratch
    }

    ghost function Model(): Machine
      requires Valid()
      reads this, ram, scratch
    {
      MachineState(gpr, hi, lo, pc, cop0, gte, gteRest, ram[..], scratch[..])
    }

    /** Registers and memory as a body leaves them. */
    method Load(machine: Machine)
      requires Valid()
      modifies this, ram, scratch
      ensures Valid() && Model() == machine
    {
      gpr, hi, lo, pc := machine.gpr, machine.hi, machine.lo, machine.pc;
      cop0, gte, gteRest := machine.cop0, machine.gte, machine.gteRest;
      CopyBytes(ram, machine.ram, 0, ram.Length);
      CopyBytes(scratch, machine.scratchpad, 0, scratch.Length);
    }

    method Capture() returns (snapshot: Machine)
      requires Valid()
      ensures snapshot == Model()
    {
      snapshot := MachineState(gpr, hi, lo, pc, cop0, gte, gteRest, ram[..], scratch[..]);
    }

    /** Writes the captured machine back; the report counts exactly the bytes of memory that differed, and every
        rewritten run is notified. */
    method RestoreInto(saved: Machine) returns (notified: seq<Range>, bytesWritten: nat)
      requires Valid()
      modifies this, ram, scratch
      ensures Valid() && Model() == Restored(saved)
      ensures bytesWritten == |DifferingBytes(old(ram[..]), saved.ram, |saved.ram|)| +
                              |DifferingBytes(old(scratch[..]), saved.scratchpad, |saved.scratchpad|)|
      ensures forall k :: 0 <= k < MAIN_RAM_BYTES && old(ram[..])[k] != saved.ram[k] ==>
                exists r :: r in notified && r.Contains(k)
      ensures forall k :: 0 <= k < SCRATCHPAD_BYTES && old(scratch[..])[k] != saved.scratchpad[k] ==>
                exists r :: r in notified && r.Contains(SCRATCHPAD_BASE + k)
    {
      gpr := saved.gpr[ZERO := 0];
      hi, lo, pc, cop0 := saved.hi, saved.lo, saved.pc, saved.cop0;
      gte, gteRest := saved.gte, saved.gteRest;
      ghost var wasRam, wasScratch := ram[..], scratch[..];
      var first, ramRuns, n := RestoreRegion(ram, saved.ram, 0);
      assert scratch[..] == wasScratch;
      var second, scratchRuns, m := RestoreRegion(scratch, saved.scratchpad, SCRATCHPAD_BASE);
      notified, bytesWritten := first + second, n + m;
      forall k | 0 <= k < MAIN_RAM_BYTES && wasRam[k] != saved.ram[k]
        ensures exists r :: r in notified && r.Contains(k)
      {
        var i := RunHolding(ramRuns, k);
        assert first[i] in notified && first[i].Contains(k);
      }
      forall k | 0 <= k < SCRATCHPAD_BYTES && wasScratch[k] != saved.scratchpad[k]
        ensures exists r :: r in notified && r.Contains(SCRATCHPAD_BASE + k)
      {
        var i := RunHolding(scratchRuns, k);
        assert second[i] in notified && second[i].Contains(SCRATCHPAD_BASE + k);
      }
    }
  }

  lemma RunHolding(runs: seq<Run>, k: int) returns (i: nat)
    requires InSomeRun(runs, k)
    ensures i < |runs| && runs[i].begin <= k < runs[i].end
  {
    i :| 0 <= i < |runs| && runs[i].begin <= k < runs[i].end;
  }
}
