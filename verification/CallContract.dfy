/** When two runs of one call count as the same: the O32 calling contract of the System V ABI MIPS RISC Processor
    Supplement, chapter 3, "Function Calling Sequence", as a predicate, and the comparison proved to decide it. */
module CallContracts {
  import opened GuestTypes
  import opened MachineSnapshots
  import opened SideEffectJournals

  /** One completed path of a call: the machine it left, where it continues and its ordered effect log. */
  datatype Observation = Observation(machine: Machine, continuationPc: Word, effects: seq<SideEffect>)

  // ---- the declarative contract ----------------------------------------------------------------------

  /** v0, v1, s0 to s7, gp, sp, fp and ra: all that the contract says of the register file. */
  const O32_REGISTERS: seq<nat> := [2, 3, 16, 17, 18, 19, 20, 21, 22, 23, 28, 29, 30, 31]

  /** VZn and IRn, read back sign-extended from a halfword. */
  predicate SignedHalfGte(i: nat) {
    i == 1 || i == 3 || i == 5 || 8 <= i <= 11
  }

  /** OTZ and SZn, read back as an unsigned halfword. */
  predicate UnsignedHalfGte(i: nat) {
    i == 7 || 16 <= i <= 19
  }

  /** The register file by the names of the ABI, in the order of their numbers. */
  datatype Gpr =
    | Zero | At | V0 | V1 | A0 | A1 | A2 | A3 | T0 | T1 | T2 | T3 | T4 | T5 | T6 | T7
    | S0 | S1 | S2 | S3 | S4 | S5 | S6 | S7 | T8 | T9 | K0 | K1 | Gp | Sp | Fp | Ra

  const GPRS: seq<Gpr> :=
    [Zero, At, V0, V1, A0, A1, A2, A3, T0, T1, T2, T3, T4, T5, T6, T7,
     S0, S1, S2, S3, S4, S5, S6, S7, T8, T9, K0, K1, Gp, Sp, Fp, Ra]

  /** What a callee returns in, or owes its caller unchanged. */
  predicate ResultOrPreserved(r: Gpr) {
    r.V0? || r.V1? || r.S0? || r.S1? || r.S2? || r.S3? || r.S4? || r.S5? || r.S6? || r.S7? || r.Gp? || r.Sp? || r.Fp? ||
    r.Ra?
  }

  lemma ListedNumbers(i: nat)
    ensures i in O32_REGISTERS <==> i == 2 || i == 3 || 16 <= i <= 23 || 28 <= i <= 31
  {
  }

  lemma NamedNumbers(i: nat)
    requires i < 32
    ensures |GPRS| == 32 && (ResultOrPreserved(GPRS[i]) <==> i == 2 || i == 3 || 16 <= i <= 23 || 28 <= i <= 31)
  {
  }

  /** The contract looks at exactly the registers that return a result or are preserved, each once. */
  lemma ContractRegisters(i: nat, j: nat)
    requires i < 32 && 0 < j < |O32_REGISTERS|
    ensures |GPRS| == 32 && (i in O32_REGISTERS <==> ResultOrPreserved(GPRS[i]))
    ensures O32_REGISTERS[j - 1] < O32_REGISTERS[j]
  {
    ListedNumbers(i);
    NamedNumbers(i);
  }

  /** The GTE data registers in the order of their numbers; the control registers follow. */
  datatype GteData =
    | VXY0 | VZ0 | VXY1 | VZ1 | VXY2 | VZ2 | RGBC | OTZ | IR0 | IR1 | IR2 | IR3 | SXY0 | SXY1 | SXY2 | SXYP
    | SZ0 | SZ1 | SZ2 | SZ3 | RGB0 | RGB1 | RGB2 | RES1 | MAC0 | MAC1 | MAC2 | MAC3 | IRGB | ORGB | LZCS | LZCR

  const GTE_DATA: seq<GteData> :=
    [VXY0, VZ0, VXY1, VZ1, VXY2, VZ2, RGBC, OTZ, IR0, IR1, IR2, IR3, SXY0, SXY1, SXY2, SXYP,
     SZ0, SZ1, SZ2, SZ3, RGB0, RGB1, RGB2, RES1, MAC0, MAC1, MAC2, MAC3, IRGB, ORGB, LZCS, LZCR]

  /** The halfword registers are the vectors' z and the interpolation registers, signed, and the depths, unsigned. */
  lemma HalfwordRegisters(i: nat)
    requires i < 64
    ensures |GTE_DATA| == 32
    ensures SignedHalfGte(i) <==>
            i < 32 && GTE_DATA[i] in {VZ0, VZ1, VZ2, IR0, IR1, IR2, IR3}
    ensures UnsignedHalfGte(i) <==> i < 32 && GTE_DATA[i] in {OTZ, SZ0, SZ1, SZ2, SZ3}
  {
  }

  ghost predicate GteAgrees(a: Machine, b: Machine, i: nat)
    requires i < 64
  {
    if SignedHalfGte(i) || UnsignedHalfGte(i) then a.gte[i] % 0x1_0000 == b.gte[i] % 0x1_0000
    else a.gte[i] == b.gte[i]
  }

  ghost predicate RegistersAgree(original: Observation, native: Observation) {
    && original.continuationPc == native.continuationPc
    && (forall i :: 0 <= i < |O32_REGISTERS| ==>
          original.machine.gpr[O32_REGISTERS[i]] == native.machine.gpr[O32_REGISTERS[i]])
    && original.machine.cop0[COP0_STATUS] == native.machine.cop0[COP0_STATUS]
    && (forall i :: 0 <= i < 64 ==> GteAgrees(original.machine, native.machine, i))
  }

  /** The items the register comparison looks at: the continuation pc, the O32 registers, COP0 status, the GTE words. */
  const REGISTER_ITEMS := 80

  ghost predicate ItemDiffers(original: Observation, native: Observation, k: nat)
    requires k < REGISTER_ITEMS
  {
    if k == 0 then original.continuationPc != native.continuationPc
    else if k <= 14 then original.machine.gpr[O32_REGISTERS[k - 1]] != native.machine.gpr[O32_REGISTERS[k - 1]]
    else if k == 15 then original.machine.cop0[COP0_STATUS] != native.machine.cop0[COP0_STATUS]
    else !GteAgrees(original.machine, native.machine, k - 16)
  }

  ghost function DifferingItems(original: Observation, native: Observation, n: nat): set<nat>
    requires n <= REGISTER_ITEMS
  {
    set k: nat | k < n && ItemDiffers(original, native, k)
  }

  lemma OneMoreItem(original: Observation, native: Observation, n: nat)
    requires n < REGISTER_ITEMS
    ensures |DifferingItems(original, native, n + 1)| ==
            |DifferingItems(original, native, n)| + if ItemDiffers(original, native, n) then 1 else 0
  {
    var before, after := DifferingItems(original, native, n), DifferingItems(original, native, n + 1);
    assert after == before + (if ItemDiffers(original, native, n) then {n} else {});
  }

  lemma NoItemsMeansRegistersAgree(original: Observation, native: Observation)
    ensures |DifferingItems(original, native, REGISTER_ITEMS)| == 0 <==> RegistersAgree(original, native)
  {
    var items := DifferingItems(original, native, REGISTER_ITEMS);
    if RegistersAgree(original, native) {
      forall k: nat | k < REGISTER_ITEMS ensures !ItemDiffers(original, native, k) {
      }
      assert items == {};
    }
    if items == {} {
      forall k: nat | k < REGISTER_ITEMS ensures !ItemDiffers(original, native, k) {
        assert k !in items;
      }
      assert !ItemDiffers(original, native, 0) && !ItemDiffers(original, native, 15);
      forall i | 0 <= i < |O32_REGISTERS|
        ensures original.machine.gpr[O32_REGISTERS[i]] == native.machine.gpr[O32_REGISTERS[i]]
      {
        assert !ItemDiffers(original, native, i + 1);
      }
      forall i: nat | i < 64 ensures GteAgrees(original.machine, native.machine, i) {
        assert !ItemDiffers(original, native, i + 16);
      }
    }
  }

  predicate Mapped(p: int) {
    0 <= p < MAIN_RAM_BYTES || SCRATCHPAD_BASE <= p < SCRATCHPAD_BASE + SCRATCHPAD_BYTES
  }

  /** The byte at a mapped physical address. */
  function ByteAt(m: Machine, p: int): Byte
    requires Mapped(p)
  {
    if p >= SCRATCHPAD_BASE then m.scratchpad[p - SCRATCHPAD_BASE] else m.ram[p]
  }

  ghost function DifferingAddresses(a: Machine, b: Machine): set<int> {
    set p | 0 <= p < PHYSICAL_SPACE && Mapped(p) && ByteAt(a, p) != ByteAt(b, p)
  }

  ghost predicate MemoryAgrees(a: Machine, b: Machine, window: Run) {
    forall p :: Mapped(p) && !(window.begin <= p < window.end) ==> ByteAt(a, p) == ByteAt(b, p)
  }

  ghost predicate ContractHolds(original: Observation, native: Observation, window: Run) {
    && RegistersAgree(original, native)
    && MemoryAgrees(original.machine, native.machine, window)
    && original.effects == native.effects
  }

  // ---- the dead-stack window -------------------------------------------------------------------------

  /** The physical bytes in which a native may leave anything at all. */
  function DeadStackWindow(entrySp: Word, bytes: Word): Run {
    var address := Physical(entrySp);
    if address < RAM_MIRROR_SPAN then
      var top := address % MAIN_RAM_BYTES;
      Run(if bytes < top then top - bytes else 0, top)
    else if SCRATCHPAD_BASE <= address <= SCRATCHPAD_BASE + SCRATCHPAD_BYTES then
      Run(if bytes < address - SCRATCHPAD_BASE then address - bytes else SCRATCHPAD_BASE, address)
    else Run(0, 0)
  }

  const SCRATCHPAD_END := SCRATCHPAD_BASE + SCRATCHPAD_BYTES

  /** The memory byte an address names; the four RAM mirrors name one memory. */
  function Fold(address: Word): Word {
    if Physical(address) < RAM_MIRROR_SPAN then Physical(address) % MAIN_RAM_BYTES else Physical(address)
  }

  /** The address k bytes below the stack pointer. */
  function Below(entrySp: Word, k: nat): Word {
    (entrySp - k) % 0x1_0000_0000
  }

  lemma BelowFolds(entrySp: Word, k: nat)
    ensures Physical(Below(entrySp, k)) == (Physical(entrySp) - k) % PHYSICAL_SPACE
  {
    var quotient, segment := (entrySp - k) / 0x1_0000_0000, entrySp / PHYSICAL_SPACE;
    var low := Below(entrySp, k);
    assert low == Physical(entrySp) - k + PHYSICAL_SPACE * (segment - 8 * quotient);
    assert low % PHYSICAL_SPACE == (Physical(entrySp) - k) % PHYSICAL_SPACE by {
      SameRemainder(low, Physical(entrySp) - k, segment - 8 * quotient);
    }
  }

  lemma SameRemainder(a: int, b: int, n: int)
    requires a == b + PHYSICAL_SPACE * n
    ensures a % PHYSICAL_SPACE == b % PHYSICAL_SPACE
  {
  }

  ghost predicate InWindow(entrySp: Word, bytes: Word, p: int) {
    DeadStackWindow(entrySp, bytes).begin <= p < DeadStackWindow(entrySp, bytes).end
  }

  /** The window is the `bytes` memory bytes just below the stack pointer in its own memory, cut off at that memory's
      start; a stack pointer naming no memory has none. */
  lemma DeadStackWindowMeaning(entrySp: Word, bytes: Word, p: int)
    ensures var w := DeadStackWindow(entrySp, bytes);
            && w.begin <= w.end
            && (w.begin <= p < w.end ==>
                  Mapped(p) && 1 <= w.end - p <= bytes && p == Fold(Below(entrySp, w.end - p)))
            && (Physical(entrySp) < RAM_MIRROR_SPAN ==>
                  w.end == Physical(entrySp) % MAIN_RAM_BYTES &&
                  (0 <= p < w.end && w.end - p <= bytes ==> w.begin <= p))
            && (SCRATCHPAD_BASE <= Physical(entrySp) <= SCRATCHPAD_END ==>
                  w.end == Physical(entrySp) &&
                  (SCRATCHPAD_BASE <= p < w.end && w.end - p <= bytes ==> w.begin <= p))
            && (RAM_MIRROR_SPAN <= Physical(entrySp) < SCRATCHPAD_BASE ==> w.begin == w.end)
            && (SCRATCHPAD_END < Physical(entrySp) ==> w.begin == w.end)
  {
    if InWindow(entrySp, bytes, p) {
      BelowFolds(entrySp, DeadStackWindow(entrySp, bytes).end - p);
    }
  }

  /** Every memory byte within `bytes` below the stack pointer is in the window. */
  ghost predicate ExcusesAllBelow(entrySp: Word, bytes: Word) {
    forall k: nat :: 1 <= k <= bytes && Mapped(Fold(Below(entrySp, k))) ==>
      InWindow(entrySp, bytes, Fold(Below(entrySp, k)))
  }

  /** How far below the stack pointer the next memory byte outside its own memory's window lies: what the window can be
      asked to span. */
  function Unbroken(entrySp: Word): nat {
    var p := Physical(entrySp);
    if p < MAIN_RAM_BYTES then p + (PHYSICAL_SPACE - SCRATCHPAD_END)
    else if p < RAM_MIRROR_SPAN then p % MAIN_RAM_BYTES
    else if p <= SCRATCHPAD_END then p - RAM_MIRROR_SPAN
    else p - SCRATCHPAD_END
  }

  /** Below the stack pointer and around the end of the physical space, without remainders. */
  lemma StepsBelow(entrySp: Word, k: nat)
    ensures k <= Physical(entrySp) ==> Physical(Below(entrySp, k)) == Physical(entrySp) - k
    ensures Physical(entrySp) < k <= PHYSICAL_SPACE ==>
              Physical(Below(entrySp, k)) == Physical(entrySp) - k + PHYSICAL_SPACE
  {
    BelowFolds(entrySp, k);
  }

  lemma MirrorFolds(p: Word, k: nat)
    requires MAIN_RAM_BYTES <= p < RAM_MIRROR_SPAN
    ensures k <= p % MAIN_RAM_BYTES ==> (p - k) % MAIN_RAM_BYTES == p % MAIN_RAM_BYTES - k
    ensures k == p % MAIN_RAM_BYTES + 1 ==> k <= p && (p - k) % MAIN_RAM_BYTES == MAIN_RAM_BYTES - 1
  {
    var mirror := p / MAIN_RAM_BYTES;
    assert mirror == 1 || mirror == 2 || mirror == 3;
    assert p == MAIN_RAM_BYTES * mirror + p % MAIN_RAM_BYTES;
  }

  lemma FirstUnexcused(entrySp: Word, bytes: Word)
    requires bytes > Unbroken(entrySp)
    ensures var p := Fold(Below(entrySp, Unbroken(entrySp) + 1));
            Mapped(p) && !InWindow(entrySp, bytes, p)
  {
    var p, k := Physical(entrySp), Unbroken(entrySp) + 1;
    StepsBelow(entrySp, k);
    if MAIN_RAM_BYTES <= p < RAM_MIRROR_SPAN {
      MirrorFolds(p, k);
    }
  }

  lemma ExcusedWithin(entrySp: Word, bytes: Word, k: nat)
    requires 1 <= k <= bytes <= Unbroken(entrySp) && Mapped(Fold(Below(entrySp, k)))
    ensures InWindow(entrySp, bytes, Fold(Below(entrySp, k)))
  {
    var p := Physical(entrySp);
    StepsBelow(entrySp, k);
    if MAIN_RAM_BYTES <= p < RAM_MIRROR_SPAN {
      MirrorFolds(p, k);
    }
  }

  /** The window excuses the whole callee frame, for every stack pointer and every size, if and only if no other memory
      comes within that size below the stack pointer: in the first RAM mirror the scratchpad is next, in a later one the
      top of main RAM, and past the mirrors or the scratchpad the memory just below. */
  lemma WindowExcusesAllBelowIff(entrySp: Word, bytes: Word)
    ensures ExcusesAllBelow(entrySp, bytes) <==> bytes <= Unbroken(entrySp)
  {
    if bytes > Unbroken(entrySp) {
      FirstUnexcused(entrySp, bytes);
      assert !ExcusesAllBelow(entrySp, bytes);
    } else {
      forall k: nat | 1 <= k <= bytes && Mapped(Fold(Below(entrySp, k)))
        ensures InWindow(entrySp, bytes, Fold(Below(entrySp, k)))
      {
        ExcusedWithin(entrySp, bytes, k);
      }
    }
  }

  /** At 0x80200000 the window is empty at every size, and the byte just below the stack pointer is the last of main
      RAM; 0x10 higher the window holds 0x10 bytes of whatever was asked for. */
  lemma MirrorStartIsJudged(bytes: Word)
    requires bytes > 0x10
    ensures DeadStackWindow(0x8020_0000, bytes) == Run(0, 0) && Fold(Below(0x8020_0000, 1)) == MAIN_RAM_BYTES - 1
    ensures DeadStackWindow(0x8020_0010, bytes) == Run(0, 0x10) && Fold(Below(0x8020_0010, 0x11)) == MAIN_RAM_BYTES - 1
    ensures !ExcusesAllBelow(0x8020_0000, bytes) && !ExcusesAllBelow(0x8020_0010, bytes)
  {
    BelowFolds(0x8020_0000, 1);
    BelowFolds(0x8020_0010, 0x11);
    WindowExcusesAllBelowIff(0x8020_0000, bytes);
    WindowExcusesAllBelowIff(0x8020_0010, bytes);
  }

  // ---- the judgement ---------------------------------------------------------------------------------

  datatype Difference =
    | ContinuationPc
    | Register(index: nat)
    | Cop0Status
    | GteRegister(index: nat)
    | MemoryRange(range: Run)
    | EffectAt(index: nat)

  datatype Verdict = Match | Mismatch | Incomparable

  const LISTED_FURTHER := 8

  datatype Outcome = Outcome(
    verdict: Verdict,
    difference: Option<Difference>,
    further: seq<Difference>,
    registersDiffering: nat,
    memoryRangesDiffering: nat,
    memoryBytesDiffering: int,
    deadStackBytesIgnored: int,
    sideEffectsOriginal: nat,
    sideEffectsNative: nat)

  const EMPTY_OUTCOME := Outcome(Match, None, [], 0, 0, 0, 0, 0, 0)

  function NoteFirst(outcome: Outcome, d: Difference): Outcome {
    if outcome.difference.None? then outcome.(difference := Some(d))
    else if |outcome.further| < LISTED_FURTHER then outcome.(further := outcome.further + [d])
    else outcome
  }

  /** The outcome lists `all` as far as it lists anything: the first, then up to eight more. */
  ghost predicate Lists(outcome: Outcome, all: seq<Difference>) {
    if |all| == 0 then outcome.difference.None? && outcome.further == []
    else
      && outcome.difference == Some(all[0])
      && outcome.further == all[1..if |all| <= 1 + LISTED_FURTHER then |all| else 1 + LISTED_FURTHER]
  }

  lemma NoteFirstLists(outcome: Outcome, all: seq<Difference>, d: Difference)
    requires Lists(outcome, all)
    ensures Lists(NoteFirst(outcome, d), all + [d])
  {
    if 0 < |all| <= LISTED_FURTHER {
      assert (all + [d])[1..|all| + 1] == all[1..|all|] + [d];
    } else if |all| > LISTED_FURTHER {
      assert (all + [d])[1..1 + LISTED_FURTHER] == all[1..1 + LISTED_FURTHER];
    }
  }

  function SignExtendHalf(w: Word): Word {
    var half := w % 0x1_0000;
    if half < 0x8000 then half else half + 0xFFFF_0000
  }

  function ArchitecturalGte(gte: seq<Word>, i: nat): Word
    requires i < |gte|
  {
    if SignedHalfGte(i) then SignExtendHalf(gte[i])
    else if UnsignedHalfGte(i) then gte[i] % 0x1_0000
    else gte[i]
  }

  /** The low halfword is kept and its sign bit fills the upper one. */
  lemma SignFillsTheUpperHalf(w: Word)
    ensures SignExtendHalf(w) % 0x1_0000 == w % 0x1_0000
    ensures SignExtendHalf(w) / 0x1_0000 == if w / 0x8000 % 2 == 1 then 0xFFFF else 0
  {
    var half := w % 0x1_0000;
    assert w == 0x1_0000 * (w / 0x1_0000) + half;
    assert half < 0x8000 ==> w / 0x8000 == 2 * (w / 0x1_0000);
    assert half >= 0x8000 ==> w / 0x8000 == 2 * (w / 0x1_0000) + 1;
  }

  /** Two GTE words read back alike exactly when the bits MFC2 can see agree. */
  lemma ArchitecturalGteSeesTheContract(a: Machine, b: Machine, i: nat)
    requires i < 64
    ensures ArchitecturalGte(a.gte, i) == ArchitecturalGte(b.gte, i) <==> GteAgrees(a, b, i)
  {
  }

  /** What item k is called in the report. */
  function Named(k: nat): Difference
    requires k < REGISTER_ITEMS
  {
    if k == 0 then ContinuationPc
    else if k <= 14 then Register(O32_REGISTERS[k - 1])
    else if k == 15 then Cop0Status
    else GteRegister(k - 16)
  }

  /** The differing ones of the first n items, in order. */
  ghost function RegisterDifferences(original: Observation, native: Observation, n: nat): seq<Difference>
    requires n <= REGISTER_ITEMS
  {
    if n == 0 then []
    else
      RegisterDifferences(original, native, n - 1) +
      if ItemDiffers(original, native, n - 1) then [Named(n - 1)] else []
  }

  /** The outcome counts and lists the first n items. */
  ghost predicate Compared(original: Observation, native: Observation, start: Outcome, outcome: Outcome,
                           noted: seq<Difference>, n: nat)
    requires n <= REGISTER_ITEMS
  {
    && Lists(outcome, noted) && noted == RegisterDifferences(original, native, n)
    && |noted| == |DifferingItems(original, native, n)|
    && outcome == start.(difference := outcome.difference, further := outcome.further,
                         registersDiffering := start.registersDiffering + |noted|)
  }

  /** Enters item n, named d, when it differs. */
  method CompareItem(original: Observation, native: Observation, ghost start: Outcome, before: Outcome,
                     ghost noted: seq<Difference>, ghost n: nat, differs: bool, d: Difference)
    returns (outcome: Outcome, ghost all: seq<Difference>)
    requires n < REGISTER_ITEMS && Compared(original, native, start, before, noted, n)
    requires (differs <==> ItemDiffers(original, native, n)) && d == Named(n)
    ensures Compared(original, native, start, outcome, all, n + 1)
    ensures outcome.registersDiffering == before.registersDiffering + if differs then 1 else 0
  {
    OneMoreItem(original, native, n);
    outcome, all := before, noted;
    if differs {
      NoteFirstLists(outcome, noted, d);
      outcome := NoteFirst(outcome, d).(registersDiffering := outcome.registersDiffering + 1);
      all := noted + [d];
    }
  }

  method CompareRegisters(original: Observation, native: Observation, start: Outcome)
    returns (outcome: Outcome, ghost noted: seq<Difference>)
    requires Lists(start, [])
    ensures Compared(original, native, start, outcome, noted, REGISTER_ITEMS)
    ensures outcome.registersDiffering ==
            start.registersDiffering + |DifferingItems(original, native, REGISTER_ITEMS)|
    ensures outcome.difference.None? <==> RegistersAgree(original, native)
    ensures noted == [] <==> RegistersAgree(original, native)
  {
    outcome, noted := start, [];
    assert DifferingItems(original, native, 0) == {};
    outcome, noted := CompareItem(original, native, start, outcome, noted, 0,
                                  original.continuationPc != native.continuationPc, ContinuationPc);
    var i := 0;
    while i < |O32_REGISTERS|
      invariant 0 <= i <= |O32_REGISTERS| == 14
      invariant Compared(original, native, start, outcome, noted, 1 + i)
    {
      var r := O32_REGISTERS[i];
      outcome, noted := CompareItem(original, native, start, outcome, noted, 1 + i,
                                    original.machine.gpr[r] != native.machine.gpr[r], Register(r));
      i := i + 1;
    }
    outcome, noted := CompareItem(original, native, start, outcome, noted, 15,
                                  original.machine.cop0[COP0_STATUS] != native.machine.cop0[COP0_STATUS], Cop0Status);
    i := 0;
    while i < 64
      invariant 0 <= i <= 64
      invariant Compared(original, native, start, outcome, noted, 16 + i)
    {
      ArchitecturalGteSeesTheContract(original.machine, native.machine, i);
      var differs := ArchitecturalGte(original.machine.gte, i) != ArchitecturalGte(native.machine.gte, i);
      outcome, noted := CompareItem(original, native, start, outcome, noted, 16 + i, differs, GteRegister(i));
      i := i + 1;
    }
    NoItemsMeansRegistersAgree(original, native);
  }

  /** Where two machines' memories differ, as ascending physical runs. */
  method DifferingRanges(a: Machine, b: Machine) returns (ranges: seq<Run>)
    ensures Ascending(ranges, PHYSICAL_SPACE)
    ensures BytesOf(ranges) == DifferingAddresses(a, b)
  {
    var ramRuns := DifferingRuns(a.ram, b.ram);
    var scratchRuns := DifferingRuns(a.scratchpad, b.scratchpad);
    var i := 0;
    ranges := ramRuns;
    while i < |scratchRuns|
      invariant 0 <= i <= |scratchRuns|
      invariant ranges == ramRuns + Shifted(scratchRuns[..i])
    {
      assert scratchRuns[..i + 1] == scratchRuns[..i] + [scratchRuns[i]];
      ranges := ranges + [Run(SCRATCHPAD_BASE + scratchRuns[i].begin, SCRATCHPAD_BASE + scratchRuns[i].end)];
      i := i + 1;
    }
    assert scratchRuns[..|scratchRuns|] == scratchRuns;
    PhysicalRuns(a, b, ramRuns, scratchRuns);
  }

  function Shifted(runs: seq<Run>): seq<Run> {
    seq(|runs|, i requires 0 <= i < |runs| => Run(SCRATCHPAD_BASE + runs[i].begin, SCRATCHPAD_BASE + runs[i].end))
  }

  lemma ShiftedRunsFollow(ramRuns: seq<Run>, scratchRuns: seq<Run>)
    requires Ascending(ramRuns, MAIN_RAM_BYTES) && Ascending(scratchRuns, SCRATCHPAD_BYTES)
    ensures Ascending(ramRuns + Shifted(scratchRuns), PHYSICAL_SPACE)
  {
    var all := ramRuns + Shifted(scratchRuns);
    forall i, j | 0 <= i < j < |all| ensures all[i].end < all[j].begin {
      if j < |ramRuns| {
        assert ramRuns[i].end < ramRuns[j].begin;
      } else if i >= |ramRuns| {
        assert scratchRuns[i - |ramRuns|].end < scratchRuns[j - |ramRuns|].begin;
      }
    }
  }

  lemma InShiftedRuns(ramRuns: seq<Run>, scratchRuns: seq<Run>, p: int)
    ensures InSomeRun(ramRuns + Shifted(scratchRuns), p) <==>
            InSomeRun(ramRuns, p) || InSomeRun(scratchRuns, p - SCRATCHPAD_BASE)
  {
    var all := ramRuns + Shifted(scratchRuns);
    if InSomeRun(all, p) {
      var i := RunHolding(all, p);
      if i < |ramRuns| {
        assert ramRuns[i] == all[i];
      } else {
        assert scratchRuns[i - |ramRuns|].begin <= p - SCRATCHPAD_BASE < scratchRuns[i - |ramRuns|].end;
      }
    }
    if InSomeRun(ramRuns, p) {
      var i := RunHolding(ramRuns, p);
      assert all[i] == ramRuns[i];
    }
    if InSomeRun(scratchRuns, p - SCRATCHPAD_BASE) {
      var j := RunHolding(scratchRuns, p - SCRATCHPAD_BASE);
      assert all[|ramRuns| + j].begin <= p < all[|ramRuns| + j].end;
    }
  }

  lemma RunsAreTheDifferences(a: Machine, b: Machine, ramRuns: seq<Run>, scratchRuns: seq<Run>, p: int)
    requires ExactRuns(a.ram, b.ram, MAIN_RAM_BYTES, ramRuns)
    requires ExactRuns(a.scratchpad, b.scratchpad, SCRATCHPAD_BYTES, scratchRuns)
    ensures InSomeRun(ramRuns, p) || InSomeRun(scratchRuns, p - SCRATCHPAD_BASE) <==> p in DifferingAddresses(a, b)
  {
    if InSomeRun(ramRuns, p) {
      var i := RunHolding(ramRuns, p);
    }
    if InSomeRun(scratchRuns, p - SCRATCHPAD_BASE) {
      var i := RunHolding(scratchRuns, p - SCRATCHPAD_BASE);
    }
  }

  lemma PhysicalRuns(a: Machine, b: Machine, ramRuns: seq<Run>, scratchRuns: seq<Run>)
    requires ExactRuns(a.ram, b.ram, MAIN_RAM_BYTES, ramRuns)
    requires ExactRuns(a.scratchpad, b.scratchpad, SCRATCHPAD_BYTES, scratchRuns)
    ensures Ascending(ramRuns + Shifted(scratchRuns), PHYSICAL_SPACE)
    ensures BytesOf(ramRuns + Shifted(scratchRuns)) == DifferingAddresses(a, b)
  {
    var all := ramRuns + Shifted(scratchRuns);
    ShiftedRunsFollow(ramRuns, scratchRuns);
    BytesOfMeaning(all);
    forall p ensures p in BytesOf(all) <==> p in DifferingAddresses(a, b) {
      InShiftedRuns(ramRuns, scratchRuns, p);
      RunsAreTheDifferences(a, b, ramRuns, scratchRuns, p);
    }
  }

  /** One range's bytes outside the window, split into the parts below and above it. */
  function JudgeRange(outcome: Outcome, range: Run): Outcome {
    if range.end <= range.begin then outcome
    else
      NoteFirst(outcome.(memoryRangesDiffering := outcome.memoryRangesDiffering + 1,
                         memoryBytesDiffering := outcome.memoryBytesDiffering + range.end - range.begin),
                MemoryRange(range))
  }

  function Max(a: nat, b: nat): nat { if a < b then b else a }
  function Min(a: nat, b: nat): nat { if a < b then a else b }

  lemma SplitRangeBytes(range: Run, window: Run)
    requires range.begin < range.end && window.begin <= window.end
    ensures var bytes, w := Interval(range.begin, range.end), Interval(window.begin, window.end);
            && |bytes * w| == OverlapLength(range, window)
            && |bytes - w| == range.end - range.begin - OverlapLength(range, window)
  {
    var bytes, w := Interval(range.begin, range.end), Interval(window.begin, window.end);
    var lo, hi := Max(range.begin, window.begin), Min(range.end, window.end);
    if lo >= hi {
      assert bytes * w == {} && bytes - w == bytes;
      IntervalSize(range.begin, range.end);
    } else {
      assert bytes * w == Interval(lo, hi);
      assert bytes - w == Interval(range.begin, lo) + Interval(hi, range.end);
      assert Interval(range.begin, lo) !! Interval(hi, range.end);
      IntervalSize(lo, hi);
      IntervalSize(range.begin, lo);
      IntervalSize(hi, range.end);
    }
  }

  /** One more run's bytes join a disjoint set's two counts. */
  lemma CountsAdd(before: set<int>, more: set<int>, w: set<int>)
    requires before !! more
    ensures |(before + more) * w| == |before * w| + |more * w|
    ensures |(before + more) - w| == |before - w| + |more - w|
  {
    assert (before + more) * w == before * w + more * w;
    assert (before + more) - w == (before - w) + (more - w);
  }

  ghost function BytesInside(ranges: seq<Run>, window: Run): nat {
    |BytesOf(ranges) * Interval(window.begin, window.end)|
  }

  ghost function BytesOutside(ranges: seq<Run>, window: Run): nat {
    |BytesOf(ranges) - Interval(window.begin, window.end)|
  }

  /** The parts of a range outside the window: below it and above it, or all of it when they do not meet. */
  function Around(range: Run, window: Run): seq<Run> {
    var lo, hi := Max(range.begin, window.begin), Min(range.end, window.end);
    if lo >= hi then [range]
    else
      (if range.begin < lo then [Run(range.begin, lo)] else []) +
      (if hi < range.end then [Run(hi, range.end)] else [])
  }

  function PartsOf(ranges: seq<Run>, window: Run): seq<Run> {
    if |ranges| == 0 then []
    else PartsOf(ranges[..|ranges| - 1], window) + Around(ranges[|ranges| - 1], window)
  }

  function MemoryDifferences(parts: seq<Run>): seq<Difference> {
    seq(|parts|, i requires 0 <= i < |parts| => MemoryRange(parts[i]))
  }

  lemma AscendJoin(a: seq<Run>, b: seq<Run>)
    requires Ascending(a, PHYSICAL_SPACE) && Ascending(b, PHYSICAL_SPACE)
    requires |a| > 0 && |b| > 0 ==> a[|a| - 1].end < b[0].begin
    ensures Ascending(a + b, PHYSICAL_SPACE)
  {
    forall i, j | 0 <= i < j < |a + b| ensures (a + b)[i].end < (a + b)[j].begin {
      if i < |a| <= j {
        assert a[i].end <= a[|a| - 1].end && b[0].begin <= b[j - |a|].begin;
      }
    }
  }

  lemma AroundLiesInside(range: Run, window: Run)
    requires range.begin < range.end <= PHYSICAL_SPACE && window.begin <= window.end
    ensures var parts := Around(range, window);
            && Ascending(parts, PHYSICAL_SPACE)
            && (forall i :: 0 <= i < |parts| ==> range.begin <= parts[i].begin && parts[i].end <= range.end)
  {
  }

  /** Every run ends by `end`. */
  ghost predicate EndsBy(runs: seq<Run>, end: nat) {
    forall i :: 0 <= i < |runs| ==> runs[i].end <= end
  }

  lemma OneMoreAscends(parts: seq<Run>, last: Run, window: Run, end: nat)
    requires Ascending(parts, PHYSICAL_SPACE) && EndsBy(parts, end) && (|parts| > 0 ==> end < last.begin)
    requires last.begin < last.end <= PHYSICAL_SPACE && window.begin <= window.end
    ensures Ascending(parts + Around(last, window), PHYSICAL_SPACE) && EndsBy(parts + Around(last, window), last.end)
  {
    AroundLiesInside(last, window);
    AscendJoin(parts, Around(last, window));
  }

  /** The parts lie within the ranges, apart from each other. */
  lemma {:induction false} PartsAscend(ranges: seq<Run>, window: Run)
    requires Ascending(ranges, PHYSICAL_SPACE) && window.begin <= window.end
    ensures Ascending(PartsOf(ranges, window), PHYSICAL_SPACE)
    ensures EndsBy(PartsOf(ranges, window), if |ranges| > 0 then ranges[|ranges| - 1].end else 0)
  {
    if |ranges| > 0 {
      var init, last := ranges[..|ranges| - 1], ranges[|ranges| - 1];
      PartsAscend(init, window);
      var end := if |init| > 0 then init[|init| - 1].end else 0;
      assert |init| > 0 ==> ranges[|init| - 1].end < last.begin;
      OneMoreAscends(PartsOf(init, window), last, window, end);
    }
  }

  lemma {:induction false} BytesJoin(a: seq<Run>, b: seq<Run>)
    ensures BytesOf(a + b) == BytesOf(a) + BytesOf(b)
  {
    if |b| == 0 {
      assert a + b == a;
    } else {
      BytesJoin(a, b[..|b| - 1]);
      assert (a + b)[..|a + b| - 1] == a + b[..|b| - 1];
    }
  }

  lemma BytesOfOne(begin: nat, end: nat)
    ensures BytesOf([]) == {} && BytesOf([Run(begin, end)]) == Interval(begin, end)
  {
    assert [Run(begin, end)][..0] == [];
  }

  lemma BytesOfTwo(begin: nat, lo: nat, hi: nat, end: nat)
    requires begin <= lo && hi <= end
    ensures BytesOf((if begin < lo then [Run(begin, lo)] else []) + (if hi < end then [Run(hi, end)] else [])) ==
            Interval(begin, lo) + Interval(hi, end)
  {
    BytesJoin(if begin < lo then [Run(begin, lo)] else [], if hi < end then [Run(hi, end)] else []);
    BytesOfOne(begin, lo);
    BytesOfOne(hi, end);
    assert begin == lo ==> Interval(begin, lo) == {};
    assert hi == end ==> Interval(hi, end) == {};
  }

  lemma {:induction false} AroundHoldsTheRest(range: Run, window: Run)
    requires range.begin < range.end && window.begin <= window.end
    ensures BytesOf(Around(range, window)) ==
            Interval(range.begin, range.end) - Interval(window.begin, window.end)
  {
    var lo, hi := Max(range.begin, window.begin), Min(range.end, window.end);
    BytesOfOne(range.begin, range.end);
    if lo < hi {
      BytesOfTwo(range.begin, lo, hi, range.end);
    }
  }

  /** Together they hold what the ranges hold outside the window. */
  lemma {:induction false} PartsHoldTheRest(ranges: seq<Run>, window: Run)
    requires Ascending(ranges, PHYSICAL_SPACE) && window.begin <= window.end
    ensures BytesOf(PartsOf(ranges, window)) == BytesOf(ranges) - Interval(window.begin, window.end)
  {
    if |ranges| > 0 {
      var init, last := ranges[..|ranges| - 1], ranges[|ranges| - 1];
      PartsHoldTheRest(init, window);
      AroundHoldsTheRest(last, window);
      BytesJoin(PartsOf(init, window), Around(last, window));
    }
  }

  /** Nothing but the listing and the memory counters moved. */
  predicate SameButMemory(a: Outcome, b: Outcome) {
    && a.verdict == b.verdict && a.registersDiffering == b.registersDiffering
    && a.sideEffectsOriginal == b.sideEffectsOriginal && a.sideEffectsNative == b.sideEffectsNative
  }

  /** The runs are noted, counted and listed after what was noted before. */
  ghost predicate NotesRuns(start: Outcome, noted: seq<Difference>, outcome: Outcome, runs: seq<Run>) {
    && SameButMemory(outcome, start) && Lists(outcome, noted + MemoryDifferences(runs))
    && outcome.memoryRangesDiffering == start.memoryRangesDiffering + |runs|
  }

  lemma NotesJoin(start: Outcome, noted: seq<Difference>, middle: Outcome, a: seq<Run>, outcome: Outcome, b: seq<Run>)
    requires NotesRuns(start, noted, middle, a) && NotesRuns(middle, noted + MemoryDifferences(a), outcome, b)
    ensures NotesRuns(start, noted, outcome, a + b)
  {
    assert MemoryDifferences(a + b) == MemoryDifferences(a) + MemoryDifferences(b);
    assert noted + MemoryDifferences(a + b) == (noted + MemoryDifferences(a)) + MemoryDifferences(b);
  }

  method JudgeAndNote(start: Outcome, ghost noted: seq<Difference>, range: Run) returns (outcome: Outcome)
    requires Lists(start, noted)
    ensures NotesRuns(start, noted, outcome, if range.begin < range.end then [range] else [])
    ensures outcome.deadStackBytesIgnored == start.deadStackBytesIgnored
    ensures outcome.memoryBytesDiffering == start.memoryBytesDiffering + Max(range.end, range.begin) - range.begin
  {
    outcome := JudgeRange(start, range);
    if range.begin < range.end {
      NoteFirstLists(start.(memoryRangesDiffering := start.memoryRangesDiffering + 1,
                            memoryBytesDiffering := start.memoryBytesDiffering + range.end - range.begin),
                     noted, MemoryRange(range));
      assert MemoryDifferences([range]) == [MemoryRange(range)];
    } else {
      assert noted + MemoryDifferences([]) == noted;
    }
  }

  /** The bytes of a range that lie inside a window. */
  function OverlapLength(range: Run, window: Run): nat {
    var lo, hi := Max(range.begin, window.begin), Min(range.end, window.end);
    if lo >= hi then 0 else hi - lo
  }

  /** One differing range: its overlap with the window is counted, the rest is judged. */
  method JudgeAroundWindow(start: Outcome, ghost noted: seq<Difference>, range: Run, window: Run)
    returns (outcome: Outcome)
    requires Lists(start, noted) && range.begin < range.end && window.begin <= window.end
    ensures NotesRuns(start, noted, outcome, Around(range, window))
    ensures outcome.deadStackBytesIgnored == start.deadStackBytesIgnored + OverlapLength(range, window)
    ensures outcome.memoryBytesDiffering ==
            start.memoryBytesDiffering + (range.end - range.begin) - OverlapLength(range, window)
  {
    var lo, hi := Max(range.begin, window.begin), Min(range.end, window.end);
    if lo >= hi {
      outcome := JudgeAndNote(start, noted, range);
      return;
    }
    var counted := start.(deadStackBytesIgnored := start.deadStackBytesIgnored + hi - lo);
    var below := JudgeAndNote(counted, noted, Run(range.begin, lo));
    ghost var under := if range.begin < lo then [Run(range.begin, lo)] else [];
    outcome := JudgeAndNote(below, noted + MemoryDifferences(under), Run(hi, range.end));
    NotesJoin(counted, noted, below, under, outcome, if hi < range.end then [Run(hi, range.end)] else []);
  }

  /** The differing bytes outside the window, as the maximal runs they form, noted in ascending order. */
  method CompareMemory(original: Machine, native: Machine, window: Run, start: Outcome, ghost noted: seq<Difference>)
    returns (outcome: Outcome, ghost parts: seq<Run>)
    requires window.begin <= window.end && Lists(start, noted)
    requires start.memoryBytesDiffering == 0 && start.deadStackBytesIgnored == 0
    ensures NotesRuns(start, noted, outcome, parts) && Ascending(parts, PHYSICAL_SPACE)
    ensures var w := Interval(window.begin, window.end);
            && BytesOf(parts) == DifferingAddresses(original, native) - w
            && outcome.memoryBytesDiffering == |DifferingAddresses(original, native) - w|
            && outcome.deadStackBytesIgnored == |DifferingAddresses(original, native) * w|
  {
    var ranges := DifferingRanges(original, native);
    outcome := start;
    var i := 0;
    assert BytesOf(ranges[..0]) == {} && noted + MemoryDifferences([]) == noted;
    while i < |ranges|
      invariant 0 <= i <= |ranges|
      invariant NotesRuns(start, noted, outcome, PartsOf(ranges[..i], window))
      invariant outcome.memoryBytesDiffering == BytesOutside(ranges[..i], window)
      invariant outcome.deadStackBytesIgnored == BytesInside(ranges[..i], window)
    {
      OneMoreRange(ranges, i, window);
      ghost var before := outcome;
      ghost var done := PartsOf(ranges[..i], window);
      outcome := JudgeAroundWindow(outcome, noted + MemoryDifferences(done), ranges[i], window);
      NotesJoin(start, noted, before, done, outcome, Around(ranges[i], window));
      assert ranges[..i + 1][..i] == ranges[..i];
      i := i + 1;
    }
    assert ranges[..|ranges|] == ranges;
    parts := PartsOf(ranges, window);
    PartsAscend(ranges, window);
    PartsHoldTheRest(ranges, window);
  }

  lemma OneMoreRange(ranges: seq<Run>, i: nat, window: Run)
    requires i < |ranges| && Ascending(ranges, PHYSICAL_SPACE) && window.begin <= window.end
    ensures BytesInside(ranges[..i + 1], window) == BytesInside(ranges[..i], window) + OverlapLength(ranges[i], window)
    ensures BytesOutside(ranges[..i + 1], window) == BytesOutside(ranges[..i], window) +
              (ranges[i].end - ranges[i].begin) - OverlapLength(ranges[i], window)
  {
    var w := Interval(window.begin, window.end);
    var more := Interval(ranges[i].begin, ranges[i].end);
    assert ranges[..i + 1][..i] == ranges[..i];
    BytesOfMeaning(ranges[..i]);
    assert BytesOf(ranges[..i]) !! more;
    CountsAdd(BytesOf(ranges[..i]), more, w);
    SplitRangeBytes(ranges[i], window);
  }

  method CompareSideEffects(original: seq<SideEffect>, native: seq<SideEffect>, start: Outcome,
                            ghost noted: seq<Difference>)
    returns (outcome: Outcome, ghost all: seq<Difference>)
    requires Lists(start, noted)
    ensures Lists(outcome, all)
    ensures outcome == start.(difference := outcome.difference, further := outcome.further)
    ensures if original == native then all == noted
            else exists i :: all == noted + [EffectAt(i)] && LeastDifference(original, native, i)
    ensures noted <= all
  {
    outcome, all := start, noted;
    var common := Min(|original|, |native|);
    var i := 0;
    while i < common
      invariant 0 <= i <= common
      invariant original[..i] == native[..i]
      invariant outcome == start && all == noted
    {
      if original[i] != native[i] {
        NoteFirstLists(outcome, noted, EffectAt(i));
        assert LeastDifference(original, native, i);
        return NoteFirst(outcome, EffectAt(i)), noted + [EffectAt(i)];
      }
      assert original[..i + 1] == original[..i] + [original[i]] && native[..i + 1] == native[..i] + [native[i]];
      i := i + 1;
    }
    if |original| != |native| {
      NoteFirstLists(outcome, noted, EffectAt(common));
      assert LeastDifference(original, native, common);
      return NoteFirst(outcome, EffectAt(common)), noted + [EffectAt(common)];
    }
    assert original[..common] == original && native[..common] == native;
  }

  /** Everything there is to report of two paths, in order: the differing register items, the maximal runs of judged
      memory, and the index at which the effect logs part. */
  ghost predicate Reports(original: Observation, native: Observation, window: Run, parts: seq<Run>,
                          all: seq<Difference>) {
    var before := RegisterDifferences(original, native, REGISTER_ITEMS) + MemoryDifferences(parts);
    && Ascending(parts, PHYSICAL_SPACE)
    && BytesOf(parts) ==
       DifferingAddresses(original.machine, native.machine) - Interval(window.begin, window.end)
    && if original.effects == native.effects then all == before
       else exists i :: all == before + [EffectAt(i)] && LeastDifference(original.effects, native.effects, i)
  }

  /** A completed call matches exactly when the calling contract holds; it lists the first of all differences and up to
      eight more, and every counter is exact. */
  method JudgeCompletedCall(original: Observation, native: Observation, entrySp: Word, deadBytes: Word)
    returns (outcome: Outcome, ghost parts: seq<Run>, ghost all: seq<Difference>)
    ensures outcome.verdict == Match || outcome.verdict == Mismatch
    ensures outcome.verdict == Match <==> ContractHolds(original, native, DeadStackWindow(entrySp, deadBytes))
    ensures outcome.verdict == Match <==> outcome.difference.None?
    ensures var window := DeadStackWindow(entrySp, deadBytes);
            var w := Interval(window.begin, window.end);
            && Reports(original, native, window, parts, all) && Lists(outcome, all)
            && outcome.memoryRangesDiffering == |parts|
            && outcome.memoryBytesDiffering == |DifferingAddresses(original.machine, native.machine) - w|
            && outcome.deadStackBytesIgnored == |DifferingAddresses(original.machine, native.machine) * w|
    ensures outcome.registersDiffering == |DifferingItems(original, native, REGISTER_ITEMS)|
    ensures outcome.sideEffectsOriginal == |original.effects| && outcome.sideEffectsNative == |native.effects|
  {
    var window := DeadStackWindow(entrySp, deadBytes);
    DeadStackWindowMeaning(entrySp, deadBytes, 0);
    outcome := EMPTY_OUTCOME.(sideEffectsOriginal := |original.effects|, sideEffectsNative := |native.effects|);
    ghost var registers;
    outcome, registers := CompareRegisters(original, native, outcome);
    outcome, parts := CompareMemory(original.machine, native.machine, window, outcome, registers);
    outcome, all := CompareSideEffects(original.effects, native.effects, outcome,
                                       registers + MemoryDifferences(parts));
    NoBytesMeansMemoryAgrees(original.machine, native.machine, window);
    NoPartsMeansNoBytes(parts);
    outcome := outcome.(verdict := if outcome.difference.Some? then Mismatch else Match);
    assert all == [] <==> registers == [] && parts == [] && original.effects == native.effects;
  }

  lemma NoPartsMeansNoBytes(parts: seq<Run>)
    requires Ascending(parts, PHYSICAL_SPACE)
    ensures |BytesOf(parts)| == 0 <==> parts == []
  {
    if |parts| > 0 {
      BytesOfMeaning(parts);
      assert InSomeRun(parts, parts[0].begin);
    }
  }

  lemma NoBytesMeansMemoryAgrees(a: Machine, b: Machine, window: Run)
    ensures |DifferingAddresses(a, b) - Interval(window.begin, window.end)| == 0 <==> MemoryAgrees(a, b, window)
  {
    var outside := DifferingAddresses(a, b) - Interval(window.begin, window.end);
    if outside == {} {
      forall p | Mapped(p) && !(window.begin <= p < window.end) ensures ByteAt(a, p) == ByteAt(b, p) {
        assert p !in outside;
      }
    } else {
      var p :| p in outside;
      assert |outside| > 0;
    }
  }
}
