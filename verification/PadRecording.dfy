/** The v1 phase-keyed pad recording: its parser and printer are exact inverses, its button words lose no button, and
    a migrated file says what its source said. */
module PadRecordings {
  import opened GuestTypes
  import opened BlobCodecs

  // ---- the button word -------------------------------------------------------------------------------

  // A button is its bit: select, l3, r3, start, up, right, down, left, l2, r2, l1, r1, triangle, circle, cross, square.
  const BUTTON_COUNT := 16

  const NEUTRAL := 0xFFFF

  predicate IsHeldSet(held: set<nat>) {
    forall k :: k in held ==> k < BUTTON_COUNT
  }

  /** The word with the low n bits set. */
  function Ones(n: nat): nat {
    if n == 0 then 0 else 1 + 2 * Ones(n - 1)
  }

  /** The sum of the held buttons' bits, button `low` at bit 0 and n buttons in all. */
  function HeldBits(held: set<nat>, low: nat, n: nat): (bits: nat)
    ensures bits <= Ones(n)
    decreases n
  {
    if n == 0 then 0 else (if low in held then 1 else 0) + 2 * HeldBits(held, low + 1, n - 1)
  }

  lemma NeutralIsSixteenOnes()
    ensures Ones(BUTTON_COUNT) == NEUTRAL
  {
    assert Ones(4) == 15;
    assert Ones(8) == 255;
    assert Ones(12) == 4095;
  }

  /** The word of a held set, all ones but for the bits of the held buttons. */
  function MaskOf(held: set<nat>): (mask: nat)
    ensures mask <= NEUTRAL
  {
    NeutralIsSixteenOnes();
    NEUTRAL - HeldBits(held, 0, BUTTON_COUNT)
  }

  predicate BitSet(mask: nat, k: nat) {
    if k == 0 then mask % 2 == 1 else BitSet(mask / 2, k - 1)
  }

  /** The held set of an active-low word; None when it has a bit no button names. */
  function ButtonsOf(mask: nat): Option<set<nat>> {
    if mask > NEUTRAL then None else Some(set k: nat | k < BUTTON_COUNT && !BitSet(mask, k))
  }

  lemma {:induction false} BitOfComplement(held: set<nat>, low: nat, n: nat, k: nat)
    requires k < n
    ensures BitSet(Ones(n) - HeldBits(held, low, n), k) <==> low + k !in held
    decreases n
  {
    var rest := Ones(n - 1) - HeldBits(held, low + 1, n - 1);
    var word := Ones(n) - HeldBits(held, low, n);
    assert word == (if low in held then 0 else 1) + 2 * rest;
    if k > 0 {
      BitOfComplement(held, low + 1, n - 1, k - 1);
      assert word / 2 == rest;
    }
  }

  /** Held is a cleared bit: a button's bit is set exactly while it is not held. */
  lemma HeldClearsItsBit(held: set<nat>, k: nat)
    requires k < BUTTON_COUNT
    ensures BitSet(MaskOf(held), k) <==> k !in held
  {
    NeutralIsSixteenOnes();
    BitOfComplement(held, 0, BUTTON_COUNT, k);
  }

  /** Nothing held is all ones, and pressing a button takes its bit away. */
  lemma PressTakesItsBit(held: set<nat>, k: nat, n: nat)
    requires n == BUTTON_COUNT && k < n && k !in held
    ensures MaskOf({}) == 0xFFFF && MaskOf(held + {k}) == MaskOf(held) - PowerOfTwo(k)
  {
    NothingHeld(0, n);
    OneMoreHeld(held, 0, n, k);
  }

  function PowerOfTwo(k: nat): nat {
    if k == 0 then 1 else 2 * PowerOfTwo(k - 1)
  }

  lemma {:induction false} NothingHeld(low: nat, n: nat)
    ensures HeldBits({}, low, n) == 0
    decreases n
  {
    if n > 0 {
      NothingHeld(low + 1, n - 1);
    }
  }

  lemma {:induction false} BelowUnmoved(held: set<nat>, low: nat, n: nat, k: nat)
    requires k < low
    ensures HeldBits(held + {k}, low, n) == HeldBits(held, low, n)
    decreases n
  {
    if n > 0 {
      BelowUnmoved(held, low + 1, n - 1, k);
    }
  }

  lemma {:induction false} OneMoreHeld(held: set<nat>, low: nat, n: nat, k: nat)
    requires low <= k < low + n && k !in held
    ensures HeldBits(held + {k}, low, n) == HeldBits(held, low, n) + PowerOfTwo(k - low)
    decreases n
  {
    if k == low {
      BelowUnmoved(held, low + 1, n - 1, k);
    } else {
      OneMoreHeld(held, low + 1, n - 1, k);
    }
  }

  /** Every held set is named by its word. */
  lemma ButtonsOfMask(held: set<nat>)
    requires IsHeldSet(held)
    ensures ButtonsOf(MaskOf(held)) == Some(held)
  {
    NeutralIsSixteenOnes();
    var back := set k: nat | k < BUTTON_COUNT && !BitSet(MaskOf(held), k);
    forall k: nat ensures k in back <==> k in held {
      if k < BUTTON_COUNT {
        BitOfComplement(held, 0, BUTTON_COUNT, k);
      }
    }
    assert back == held;
  }

  lemma {:induction false} ClearedBits(mask: nat, held: set<nat>, low: nat, n: nat)
    requires mask <= Ones(n) && forall k: nat :: k < n ==> (low + k in held <==> !BitSet(mask, k))
    ensures HeldBits(held, low, n) == Ones(n) - mask
    decreases n
  {
    if n > 0 {
      assert low + 0 in held <==> !BitSet(mask, 0);
      forall k: nat | k < n - 1 ensures low + 1 + k in held <==> !BitSet(mask / 2, k) {
        assert low + (k + 1) in held <==> !BitSet(mask, k + 1);
      }
      ClearedBits(mask / 2, held, low + 1, n - 1);
    }
  }

  /** Every 16-bit word is the word of its held set. */
  lemma MaskOfButtons(mask: nat)
    requires mask <= NEUTRAL
    ensures ButtonsOf(mask).Some? && MaskOf(ButtonsOf(mask).value) == mask
  {
    NeutralIsSixteenOnes();
    var held := ButtonsOf(mask).value;
    forall k: nat | k < BUTTON_COUNT ensures 0 + k in held <==> !BitSet(mask, k) {
    }
    ClearedBits(mask, held, 0, BUTTON_COUNT);
  }

  // ---- the recording ---------------------------------------------------------------------------------

  datatype PadRun = PadRun(mask: nat, frames: nat) {
    predicate Packs() {
      mask < 0x1_0000 && 0 < frames < 0x1_0000_0000
    }
  }

  datatype Segment = Segment(phase: nat, runs: seq<PadRun>) {
    predicate Packs() {
      phase < 0x1_0000_0000_0000_0000 && forall i :: 0 <= i < |runs| ==> runs[i].Packs()
    }
  }

  datatype Recording = Recording(cardKind: nat, cardSha: seq<Byte>, segments: seq<Segment>) {
    /** What the printer accepts: a 32-byte identity, fields that fit, no zero-length run. */
    predicate Prints() {
      |cardSha| == 32 && cardKind < 0x1_0000_0000 && AllPack(segments)
    }

    /** What the parser accepts besides: a known card, at least one phase, frames in every phase. */
    predicate WellFormed() {
      cardKind <= 2 && |segments| > 0 && forall i :: 0 <= i < |segments| ==> |segments[i].runs| > 0
    }
  }

  predicate AllPack(segments: seq<Segment>) {
    forall i :: 0 <= i < |segments| ==> segments[i].Packs()
  }

  const MAGIC: seq<Byte> := [0x50, 0x53, 0x58, 0x50, 0x41, 0x44, 0x50, 0x48]
  const VERSION := 1
  const HEADER_BYTES := 48
  const PHASE_TAG: Byte := 0x50
  const RUN_TAG: Byte := 0x52
  const PHASE_RECORD_BYTES := 9
  const RUN_RECORD_BYTES := 7
  const UNKEYED_PHASE := 0xFFFF_FFFF_FFFF_FFFF

  function RunBytes(run: PadRun): (bytes: seq<Byte>)
    ensures |bytes| == RUN_RECORD_BYTES
  {
    [RUN_TAG] + Encode(run.mask, 2) + Encode(run.frames, 4)
  }

  function PhaseBytes(phase: nat): (bytes: seq<Byte>)
    ensures |bytes| == PHASE_RECORD_BYTES
  {
    [PHASE_TAG] + Encode(phase, 8)
  }

  function RunsBytes(runs: seq<PadRun>): seq<Byte> {
    if |runs| == 0 then [] else RunsBytes(runs[..|runs| - 1]) + RunBytes(runs[|runs| - 1])
  }

  function SegmentBytes(s: Segment): seq<Byte> {
    PhaseBytes(s.phase) + RunsBytes(s.runs)
  }

  function SegmentsBytes(segments: seq<Segment>): seq<Byte> {
    if |segments| == 0 then [] else SegmentsBytes(segments[..|segments| - 1]) + SegmentBytes(segments[|segments| - 1])
  }

  function HeaderBytes(cardKind: nat, cardSha: seq<Byte>): (bytes: seq<Byte>)
    requires |cardSha| == 32
    ensures |bytes| == HEADER_BYTES
  {
    MAGIC + Encode(VERSION, 4) + Encode(cardKind, 4) + cardSha
  }

  /** The printer; None is its refusal. */
  function Print(r: Recording): Option<seq<Byte>> {
    if r.Prints() then Some(HeaderBytes(r.cardKind, r.cardSha) + SegmentsBytes(r.segments)) else None
  }

  // ---- the parser ------------------------------------------------------------------------------------

  datatype Defect =
    | NotPhaseKeyed
    | TruncatedHeader
    | UnsupportedVersion
    | UnknownCardKind
    | TruncatedPhase(at: nat)
    | PhaseAfterEmptyPhase(at: nat)
    | TruncatedRun(at: nat)
    | RunBeforePhase(at: nat)
    | ZeroLengthRun(at: nat)
    | UnknownTag(at: nat)
    | NoFrames

  datatype Parsed<T> = Ok(value: T) | Refused(defect: Defect)

  /** The segments with one run added to the last. */
  function WithRun(segments: seq<Segment>, run: PadRun): seq<Segment>
    requires |segments| > 0
  {
    var last := segments[|segments| - 1];
    segments[..|segments| - 1] + [last.(runs := last.runs + [run])]
  }

  predicate EndsWithFrames(segments: seq<Segment>) {
    |segments| > 0 && |segments[|segments| - 1].runs| > 0
  }

  /** One record at `at`: where the next one starts and the segments so far. */
  function ParseRecord(data: seq<Byte>, at: nat, segments: seq<Segment>): (p: Parsed<(nat, seq<Segment>)>)
    requires at < |data|
    ensures p.Ok? ==> at < p.value.0 <= |data|
  {
    if data[at] == PHASE_TAG then
      if |data| - at < PHASE_RECORD_BYTES then Refused(TruncatedPhase(at))
      else if |segments| > 0 && !EndsWithFrames(segments) then Refused(PhaseAfterEmptyPhase(at))
      else Ok((at + PHASE_RECORD_BYTES, segments + [Segment(Value(data[at + 1..at + 9]), [])]))
    else if data[at] == RUN_TAG then
      if |data| - at < RUN_RECORD_BYTES then Refused(TruncatedRun(at))
      else if |segments| == 0 then Refused(RunBeforePhase(at))
      else
        var run := PadRun(Value(data[at + 1..at + 3]), Value(data[at + 3..at + 7]));
        if run.frames == 0 then Refused(ZeroLengthRun(at)) else Ok((at + RUN_RECORD_BYTES, WithRun(segments, run)))
    else Refused(UnknownTag(at))
  }

  function ParseRecords(data: seq<Byte>, at: nat, segments: seq<Segment>): Parsed<seq<Segment>>
    requires at <= |data|
    decreases |data| - at
  {
    if at == |data| then (if EndsWithFrames(segments) then Ok(segments) else Refused(NoFrames))
    else
      match ParseRecord(data, at, segments)
      case Refused(defect) => Refused(defect)
      case Ok((next, more)) => ParseRecords(data, next, more)
  }

  predicate IsPhaseKeyed(data: seq<Byte>) {
    |data| >= |MAGIC| && data[..|MAGIC|] == MAGIC
  }

  function Parse(data: seq<Byte>): Parsed<Recording> {
    if !IsPhaseKeyed(data) then Refused(NotPhaseKeyed)
    else if |data| < HEADER_BYTES then Refused(TruncatedHeader)
    else if Value(data[8..12]) != VERSION then Refused(UnsupportedVersion)
    else if Value(data[12..16]) > 2 then Refused(UnknownCardKind)
    else
      match ParseRecords(data, HEADER_BYTES, [])
      case Refused(defect) => Refused(defect)
      case Ok(segments) => Ok(Recording(Value(data[12..16]), data[16..48], segments))
  }

  // ---- printing what was parsed ----------------------------------------------------------------------

  lemma {:induction false} SegmentsBytesAppend(segments: seq<Segment>, s: Segment)
    ensures SegmentsBytes(segments + [s]) == SegmentsBytes(segments) + SegmentBytes(s)
  {
    assert (segments + [s])[..|segments|] == segments;
  }

  lemma {:induction false} RunsBytesAppend(runs: seq<PadRun>, run: PadRun)
    ensures RunsBytes(runs + [run]) == RunsBytes(runs) + RunBytes(run)
  {
    assert (runs + [run])[..|runs|] == runs;
  }

  lemma {:induction false} WithRunBytes(segments: seq<Segment>, run: PadRun)
    requires |segments| > 0
    ensures SegmentsBytes(WithRun(segments, run)) == SegmentsBytes(segments) + RunBytes(run)
  {
    var init, last := segments[..|segments| - 1], segments[|segments| - 1];
    var longer := last.(runs := last.runs + [run]);
    SegmentsBytesAppend(init, longer);
    RunsBytesAppend(last.runs, run);
    assert SegmentBytes(longer) == SegmentBytes(last) + RunBytes(run);
    var a, b, c := SegmentsBytes(init), SegmentBytes(last), RunBytes(run);
    assert a + (b + c) == (a + b) + c;
  }

  /** The segments so far are exactly the bytes read so far, and all but the last hold frames. */
  ghost predicate ReadSoFar(data: seq<Byte>, at: nat, segments: seq<Segment>) {
    && HEADER_BYTES <= at <= |data| && data[HEADER_BYTES..at] == SegmentsBytes(segments) && AllPack(segments)
    && forall i :: 0 <= i < |segments| - 1 ==> |segments[i].runs| > 0
  }

  lemma {:induction false} PhaseRecordPrintsBack(data: seq<Byte>, at: nat)
    requires at + PHASE_RECORD_BYTES <= |data| && data[at] == PHASE_TAG
    ensures data[at..at + PHASE_RECORD_BYTES] == PhaseBytes(Value(data[at + 1..at + 9]))
    ensures Value(data[at + 1..at + 9]) < 0x1_0000_0000_0000_0000
  {
    Powers();
    EncodeOfValue(data[at + 1..at + 9]);
    assert data[at..at + 9] == [data[at]] + data[at + 1..at + 9];
  }

  lemma {:induction false} RunRecordPrintsBack(data: seq<Byte>, at: nat)
    requires at + RUN_RECORD_BYTES <= |data| && data[at] == RUN_TAG
    ensures var run := PadRun(Value(data[at + 1..at + 3]), Value(data[at + 3..at + 7]));
            && data[at..at + RUN_RECORD_BYTES] == RunBytes(run)
            && run.mask < 0x1_0000 && run.frames < 0x1_0000_0000
  {
    Powers();
    EncodeOfValue(data[at + 1..at + 3]);
    EncodeOfValue(data[at + 3..at + 7]);
    assert data[at..at + 7] == [data[at]] + data[at + 1..at + 3] + data[at + 3..at + 7];
  }

  lemma {:induction false} ReadsAPhase(data: seq<Byte>, at: nat, segments: seq<Segment>, s: Segment)
    requires ReadSoFar(data, at, segments) && at + PHASE_RECORD_BYTES <= |data| && data[at] == PHASE_TAG
    requires s == Segment(Value(data[at + 1..at + 9]), []) && (|segments| == 0 || EndsWithFrames(segments))
    ensures ReadSoFar(data, at + PHASE_RECORD_BYTES, segments + [s])
  {
    var next := at + PHASE_RECORD_BYTES;
    assert data[HEADER_BYTES..next] == data[HEADER_BYTES..at] + data[at..next];
    PhaseRecordPrintsBack(data, at);
    SegmentsBytesAppend(segments, s);
    assert SegmentBytes(s) == PhaseBytes(s.phase);
  }

  lemma {:induction false} ReadsARun(data: seq<Byte>, at: nat, segments: seq<Segment>, run: PadRun)
    requires ReadSoFar(data, at, segments) && at + RUN_RECORD_BYTES <= |data| && data[at] == RUN_TAG && |segments| > 0
    requires run == PadRun(Value(data[at + 1..at + 3]), Value(data[at + 3..at + 7])) && run.frames > 0
    ensures ReadSoFar(data, at + RUN_RECORD_BYTES, WithRun(segments, run))
  {
    var next := at + RUN_RECORD_BYTES;
    assert data[HEADER_BYTES..next] == data[HEADER_BYTES..at] + data[at..next];
    RunRecordPrintsBack(data, at);
    WithRunBytes(segments, run);
  }

  lemma {:induction false} ParseRecordReads(data: seq<Byte>, at: nat, segments: seq<Segment>)
    requires at < |data| && ReadSoFar(data, at, segments) && ParseRecord(data, at, segments).Ok?
    ensures var (next, more) := ParseRecord(data, at, segments).value;
            ReadSoFar(data, next, more)
  {
    if data[at] == PHASE_TAG {
      ReadsAPhase(data, at, segments, Segment(Value(data[at + 1..at + 9]), []));
    } else {
      ReadsARun(data, at, segments, PadRun(Value(data[at + 1..at + 3]), Value(data[at + 3..at + 7])));
    }
  }

  lemma {:induction false} ParseRecordsReads(data: seq<Byte>, at: nat, segments: seq<Segment>)
    requires ReadSoFar(data, at, segments) && ParseRecords(data, at, segments).Ok?
    ensures ReadSoFar(data, |data|, ParseRecords(data, at, segments).value)
    ensures EndsWithFrames(ParseRecords(data, at, segments).value)
    decreases |data| - at
  {
    if at < |data| {
      ParseRecordReads(data, at, segments);
      var (next, more) := ParseRecord(data, at, segments).value;
      ParseRecordsReads(data, next, more);
    }
  }

  lemma {:induction false} HeaderPrintsBack(data: seq<Byte>)
    requires |data| >= HEADER_BYTES && IsPhaseKeyed(data) && Value(data[8..12]) == VERSION
    ensures data[..HEADER_BYTES] == HeaderBytes(Value(data[12..16]), data[16..48])
  {
    EncodeOfValue(data[8..12]);
    EncodeOfValue(data[12..16]);
    assert data[..HEADER_BYTES] == data[..8] + data[8..12] + data[12..16] + data[16..48];
  }

  lemma {:induction false} ParsedRecordingPrints(data: seq<Byte>, r: Recording)
    requires Parse(data) == Ok(r)
    ensures ReadSoFar(data, |data|, r.segments) && EndsWithFrames(r.segments)
  {
    assert data[HEADER_BYTES..HEADER_BYTES] == [];
    assert ReadSoFar(data, HEADER_BYTES, []);
    ParseRecordsReads(data, HEADER_BYTES, []);
  }

  /** Printing what was parsed gives back the file, byte for byte, and whatever parses is well formed. */
  lemma {:induction false} PrintOfParse(data: seq<Byte>, r: Recording)
    requires Parse(data) == Ok(r)
    ensures Print(r) == Some(data) && r.WellFormed()
  {
    ParsedRecordingPrints(data, r);
    HeaderPrintsBack(data);
    assert data == data[..HEADER_BYTES] + data[HEADER_BYTES..];
    assert data[HEADER_BYTES..|data|] == data[HEADER_BYTES..];
    assert r.cardKind <= 2 && |r.cardSha| == 32 && r.Prints();
  }

  // ---- what a refusal means --------------------------------------------------------------------------

  /** The phases in `before` were read up to `at`, and there the file cannot go on, or ends too soon, for this
      reason. */
  ghost predicate Blames(data: seq<Byte>, at: nat, before: seq<Segment>, d: Defect) {
    && ReadSoFar(data, at, before)
    && var left, open := |data| - at, |before| > 0 && before[|before| - 1].runs == [];
       match d
       case NoFrames => left == 0 && (before == [] || open)
       case TruncatedPhase(a) => a == at && 0 < left < 9 && data[at] == 0x50
       case PhaseAfterEmptyPhase(a) => a == at && 9 <= left && data[at] == 0x50 && open
       case TruncatedRun(a) => a == at && 0 < left < 7 && data[at] == 0x52
       case RunBeforePhase(a) => a == at && 7 <= left && data[at] == 0x52 && before == []
       case ZeroLengthRun(a) =>
         a == at && 7 <= left && data[at] == 0x52 && before != [] && data[at + 3..at + 7] == [0, 0, 0, 0]
       case UnknownTag(a) => a == at && 0 < left && data[at] != 0x50 && data[at] != 0x52
       case _ => false
  }

  lemma {:induction false} ZeroBytes(bytes: seq<Byte>)
    requires |bytes| == 4 && Value(bytes) == 0
    ensures bytes == [0, 0, 0, 0]
  {
    EncodeOfValue(bytes);
    assert forall i :: 0 <= i < 4 ==> bytes[i] == Digit(0, i);
    assert Digit(0, 1) == 0 && Digit(0, 2) == Digit(0, 1) && Digit(0, 3) == Digit(0, 2);
  }

  lemma {:induction false} FirstDefect(data: seq<Byte>, at: nat, segments: seq<Segment>, d: Defect)
    returns (where: nat, before: seq<Segment>)
    requires ReadSoFar(data, at, segments) && ParseRecords(data, at, segments) == Refused(d)
    ensures Blames(data, where, before, d)
    decreases |data| - at
  {
    where, before := at, segments;
    if at < |data| {
      match ParseRecord(data, at, segments)
      case Refused(_) =>
        if d.ZeroLengthRun? {
          ZeroBytes(data[at + 3..at + 7]);
        }
      case Ok((next, more)) =>
        ParseRecordReads(data, at, segments);
        where, before := FirstDefect(data, next, more, d);
    }
  }

  /** Every refusal names what is wrong: the identifier, the header's length, its version or card kind, or the first
      record that does not follow from the phases read before it. */
  lemma {:induction false} RefusalNamesTheDefect(data: seq<Byte>, d: Defect) returns (where: nat, before: seq<Segment>)
    requires Parse(data) == Refused(d)
    ensures match d
            case NotPhaseKeyed => !(MAGIC <= data)
            case TruncatedHeader => MAGIC <= data && |data| < 48
            case UnsupportedVersion => MAGIC <= data && 48 <= |data| && Value(data[8..12]) != 1
            case UnknownCardKind => MAGIC <= data && 48 <= |data| && Value(data[8..12]) == 1 && Value(data[12..16]) > 2
            case _ => Blames(data, where, before, d)
  {
    where, before := 0, [];
    if IsPhaseKeyed(data) && |data| >= HEADER_BYTES && Value(data[8..12]) == VERSION && Value(data[12..16]) <= 2 {
      assert data[HEADER_BYTES..HEADER_BYTES] == [];
      where, before := FirstDefect(data, HEADER_BYTES, [], d);
    }
  }

  // ---- parsing what was printed ----------------------------------------------------------------------

  /** Two parts printed one after the other lie at their own places. */
  lemma PartsInPlace(data: seq<Byte>, at: nat, a: seq<Byte>, b: seq<Byte>)
    requires at + |a| + |b| <= |data| && data[at..at + |a| + |b|] == a + b
    ensures data[at..at + |a|] == a && data[at + |a|..at + |a| + |b|] == b
  {
    var all := data[at..at + |a| + |b|];
    assert data[at..at + |a|] == all[..|a|] && data[at + |a|..at + |a| + |b|] == all[|a|..];
  }

  lemma {:induction false} ParseOneRun(data: seq<Byte>, at: nat, segments: seq<Segment>, run: PadRun)
    requires at + RUN_RECORD_BYTES <= |data| && data[at..at + RUN_RECORD_BYTES] == RunBytes(run)
    requires run.Packs() && |segments| > 0
    ensures ParseRecord(data, at, segments) == Ok((at + RUN_RECORD_BYTES, WithRun(segments, run)))
  {
    Powers();
    var mask, frames := Encode(run.mask, 2), Encode(run.frames, 4);
    assert data[at] == data[at..at + RUN_RECORD_BYTES][0] == RUN_TAG;
    assert RunBytes(run) == [RUN_TAG] + (mask + frames);
    PartsInPlace(data, at, [RUN_TAG], mask + frames);
    PartsInPlace(data, at + 1, mask, frames);
    ValueOfEncode(run.mask, 2);
    ValueOfEncode(run.frames, 4);
  }

  lemma {:induction false} ParseOnePhase(data: seq<Byte>, at: nat, segments: seq<Segment>, phase: nat)
    requires at + PHASE_RECORD_BYTES <= |data| && data[at..at + PHASE_RECORD_BYTES] == PhaseBytes(phase)
    requires phase < 0x1_0000_0000_0000_0000 && (|segments| == 0 || EndsWithFrames(segments))
    ensures ParseRecord(data, at, segments) == Ok((at + PHASE_RECORD_BYTES, segments + [Segment(phase, [])]))
  {
    Powers();
    assert data[at] == data[at..at + PHASE_RECORD_BYTES][0] == PHASE_TAG;
    PartsInPlace(data, at, [PHASE_TAG], Encode(phase, 8));
    ValueOfEncode(phase, 8);
  }

  /** Reading one record never changes `outcome`, as it never changes what the rest of a file parses to. */
  ghost predicate Settled(data: seq<Byte>, outcome: (nat, seq<Segment>) -> Parsed<seq<Segment>>) {
    forall at: nat, segments: seq<Segment> {:trigger ParseRecord(data, at, segments)} ::
      at < |data| && ParseRecord(data, at, segments).Ok? ==>
        outcome(at, segments) ==
        outcome(ParseRecord(data, at, segments).value.0, ParseRecord(data, at, segments).value.1)
  }

  lemma {:induction false} OneRecordOn(data: seq<Byte>, outcome: (nat, seq<Segment>) -> Parsed<seq<Segment>>,
                                       at: nat, segments: seq<Segment>, next: nat, more: seq<Segment>)
    requires Settled(data, outcome) && at < |data| && ParseRecord(data, at, segments) == Ok((next, more))
    ensures outcome(at, segments) == outcome(next, more)
  {
    var record := ParseRecord(data, at, segments);
    assert outcome(at, segments) == outcome(record.value.0, record.value.1);
  }

  lemma {:induction false} ParseRuns(data: seq<Byte>, outcome: (nat, seq<Segment>) -> Parsed<seq<Segment>>,
                                     at: nat, before: seq<Segment>, phase: nat, runs: seq<PadRun>)
    requires Settled(data, outcome)
    requires at + |RunsBytes(runs)| <= |data| && data[at..at + |RunsBytes(runs)|] == RunsBytes(runs)
    requires forall i :: 0 <= i < |runs| ==> runs[i].Packs()
    ensures outcome(at, before + [Segment(phase, [])]) ==
            outcome(at + |RunsBytes(runs)|, before + [Segment(phase, runs)])
  {
    if |runs| > 0 {
      var init, last := runs[..|runs| - 1], runs[|runs| - 1];
      var mid := at + |RunsBytes(init)|;
      PartsInPlace(data, at, RunsBytes(init), RunBytes(last));
      ParseRuns(data, outcome, at, before, phase, init);
      var sofar, longer := before + [Segment(phase, init)], before + [Segment(phase, runs)];
      ParseOneRun(data, mid, sofar, last);
      assert sofar[..|sofar| - 1] == before && init + [last] == runs;
      assert WithRun(sofar, last) == longer;
      OneRecordOn(data, outcome, mid, sofar, mid + RUN_RECORD_BYTES, longer);
      assert mid + RUN_RECORD_BYTES == at + |RunsBytes(runs)|;
    } else {
      assert runs == [];
    }
  }

  lemma {:induction false} ParseSegment(data: seq<Byte>, outcome: (nat, seq<Segment>) -> Parsed<seq<Segment>>,
                                        at: nat, before: seq<Segment>, s: Segment)
    requires Settled(data, outcome) && (|before| == 0 || EndsWithFrames(before)) && s.Packs()
    requires at + |SegmentBytes(s)| <= |data| && data[at..at + |SegmentBytes(s)|] == SegmentBytes(s)
    ensures outcome(at, before) == outcome(at + |SegmentBytes(s)|, before + [s])
  {
    PartsInPlace(data, at, PhaseBytes(s.phase), RunsBytes(s.runs));
    ParseOnePhase(data, at, before, s.phase);
    OneRecordOn(data, outcome, at, before, at + PHASE_RECORD_BYTES, before + [Segment(s.phase, [])]);
    ParseRuns(data, outcome, at + PHASE_RECORD_BYTES, before, s.phase, s.runs);
  }

  lemma {:induction false} ParseSegments(data: seq<Byte>, outcome: (nat, seq<Segment>) -> Parsed<seq<Segment>>,
                                         at: nat, segments: seq<Segment>)
    requires Settled(data, outcome) && AllPack(segments)
    requires at + |SegmentsBytes(segments)| <= |data|
    requires data[at..at + |SegmentsBytes(segments)|] == SegmentsBytes(segments)
    requires forall i :: 0 <= i < |segments| - 1 ==> |segments[i].runs| > 0
    ensures outcome(at, []) == outcome(at + |SegmentsBytes(segments)|, segments)
  {
    if |segments| > 0 {
      var init, s := segments[..|segments| - 1], segments[|segments| - 1];
      PartsInPlace(data, at, SegmentsBytes(init), SegmentBytes(s));
      ParseSegments(data, outcome, at, init);
      assert |init| > 0 ==> init[|init| - 1] == segments[|init| - 1];
      ParseSegment(data, outcome, at + |SegmentsBytes(init)|, init, s);
      assert init + [s] == segments;
    }
  }

  /** What the rest of a file parses to is settled, so records may be read in bulk. */
  lemma {:induction false} ParsedInBulk(data: seq<Byte>, at: nat, segments: seq<Segment>)
    requires AllPack(segments) && at + |SegmentsBytes(segments)| == |data| && data[at..] == SegmentsBytes(segments)
    requires forall i :: 0 <= i < |segments| - 1 ==> |segments[i].runs| > 0
    ensures ParseRecords(data, at, []) == ParseRecords(data, |data|, segments)
  {
    var outcome := (at: nat, sofar: seq<Segment>) =>
                     if at <= |data| then ParseRecords(data, at, sofar) else Refused(NoFrames);
    assert Settled(data, outcome);
    ParseSegments(data, outcome, at, segments);
  }

  lemma {:induction false} HeaderParses(cardKind: nat, cardSha: seq<Byte>, rest: seq<Byte>)
    requires |cardSha| == 32 && cardKind < 0x1_0000_0000
    ensures var data := HeaderBytes(cardKind, cardSha) + rest;
            && IsPhaseKeyed(data) && Value(data[8..12]) == VERSION && Value(data[12..16]) == cardKind
            && data[16..48] == cardSha && data[HEADER_BYTES..] == rest
  {
    Powers();
    var data := HeaderBytes(cardKind, cardSha) + rest;
    assert data[..8] == MAGIC && data[8..12] == Encode(VERSION, 4) && data[12..16] == Encode(cardKind, 4);
    ValueOfEncode(VERSION, 4);
    ValueOfEncode(cardKind, 4);
  }

  /** The printer takes more than the parser gives back. Whatever it prints parses to the very recording exactly when
      that is well formed: a known card, a phase, and frames in every phase. */
  lemma {:induction false} ParseOfPrintIff(r: Recording)
    requires r.Prints()
    ensures Parse(Print(r).value) == Ok(r) <==> r.WellFormed()
  {
    var data := Print(r).value;
    HeaderParses(r.cardKind, r.cardSha, SegmentsBytes(r.segments));
    if Parse(data) == Ok(r) {
      PrintOfParse(data, r);
    }
    if r.WellFormed() {
      ParsedInBulk(data, HEADER_BYTES, r.segments);
      assert ParseRecords(data, |data|, r.segments) == Ok(r.segments);
    }
  }

  /** Printed and then refused: every recording of an unknown card, every one of no phase, and the one phase that holds
      no frame. */
  lemma {:induction false} PrintedButRefused(r: Recording)
    requires r.Prints()
    ensures r.cardKind > 2 ==> Parse(Print(r).value) == Refused(UnknownCardKind)
    ensures r.cardKind <= 2 && |r.segments| == 0 ==> Parse(Print(r).value) == Refused(NoFrames)
    ensures r.cardKind <= 2 && r.segments == [Segment(0, [])] ==> Parse(Print(r).value) == Refused(NoFrames)
  {
    var data := Print(r).value;
    HeaderParses(r.cardKind, r.cardSha, SegmentsBytes(r.segments));
    if r.segments == [Segment(0, [])] {
      assert r.segments[..0] == [] && SegmentsBytes(r.segments) == PhaseBytes(0);
      assert data[HEADER_BYTES] == PHASE_TAG && |data| == HEADER_BYTES + PHASE_RECORD_BYTES;
      var first := [] + [Segment(Value(data[HEADER_BYTES + 1..HEADER_BYTES + 9]), [])];
      var record := ParseRecord(data, HEADER_BYTES, []);
      assert record.Ok? && record.value.0 == |data| && record.value.1 == first;
      assert ParseRecords(data, |data|, first) == Refused(NoFrames);
    }
  }

  // ---- migration -------------------------------------------------------------------------------------

  function Repeat(mask: nat, n: nat): seq<nat> {
    seq(n, _ => mask)
  }

  /** The frames a list of runs stands for. */
  function Expand(runs: seq<PadRun>): seq<nat> {
    if |runs| == 0 then [] else Expand(runs[..|runs| - 1]) + Repeat(runs[|runs| - 1].mask, runs[|runs| - 1].frames)
  }

  /** The pre-v1 file of a frame list: one little-endian word a frame. */
  function FrameBytes(frames: seq<nat>): seq<Byte> {
    if |frames| == 0 then [] else FrameBytes(frames[..|frames| - 1]) + Encode(frames[|frames| - 1], 2)
  }

  /** The frames of a pre-v1 file; None refuses an empty, phase-keyed or odd-sized one. */
  method AbsoluteMasks(data: seq<Byte>) returns (frames: Option<seq<nat>>)
    ensures frames.None? <==> |data| == 0 || MAGIC <= data || |data| % 2 != 0
    ensures frames.Some? ==> FrameBytes(frames.value) == data && |frames.value| == |data| / 2
    ensures frames.Some? ==> forall i :: 0 <= i < |frames.value| ==> frames.value[i] < 0x1_0000
  {
    if |data| == 0 || IsPhaseKeyed(data) || |data| % 2 != 0 {
      return None;
    }
    var masks: seq<nat> := [];
    var at := 0;
    while at < |data|
      invariant 0 <= at <= |data| && at % 2 == 0 && |masks| == at / 2
      invariant FrameBytes(masks) == data[..at]
      invariant forall i :: 0 <= i < |masks| ==> masks[i] < 0x1_0000
    {
      Powers();
      EncodeOfValue(data[at..at + 2]);
      assert data[..at + 2] == data[..at] + data[at..at + 2];
      var mask := Value(data[at..at + 2]);
      assert (masks + [mask])[..|masks|] == masks;
      masks := masks + [mask];
      at := at + 2;
    }
    assert data[..|data|] == data;
    return Some(masks);
  }

  lemma {:induction false} ExpandAppend(runs: seq<PadRun>, run: PadRun)
    ensures Expand(runs + [run]) == Expand(runs) + Repeat(run.mask, run.frames)
  {
    assert (runs + [run])[..|runs|] == runs;
  }

  lemma RepeatLonger(mask: nat, n: nat)
    ensures Repeat(mask, n + 1) == Repeat(mask, n) + [mask]
  {
  }

  lemma {:induction false} ExpandLonger(runs: seq<PadRun>)
    requires |runs| > 0
    ensures var last := runs[|runs| - 1];
            Expand(runs[..|runs| - 1] + [PadRun(last.mask, last.frames + 1)]) == Expand(runs) + [last.mask]
  {
    var init, last := runs[..|runs| - 1], runs[|runs| - 1];
    ExpandAppend(init, PadRun(last.mask, last.frames + 1));
    RepeatLonger(last.mask, last.frames);
    var a, b := Expand(init), Repeat(last.mask, last.frames);
    assert a + (b + [last.mask]) == (a + b) + [last.mask];
  }

  /** One more frame: the last run grows or a new one starts. */
  function AddFrame(runs: seq<PadRun>, mask: nat): seq<PadRun> {
    if |runs| > 0 && runs[|runs| - 1].mask == mask then
      runs[..|runs| - 1] + [PadRun(mask, runs[|runs| - 1].frames + 1)]
    else runs + [PadRun(mask, 1)]
  }

  /** Runs of at most `limit` frames, none empty, no two neighbours of the same word. */
  ghost predicate Compact(runs: seq<PadRun>, limit: nat) {
    && (forall k :: 0 <= k < |runs| ==> runs[k].mask < 0x1_0000 && 0 < runs[k].frames <= limit)
    && (forall k :: 0 < k < |runs| ==> runs[k - 1].mask != runs[k].mask)
  }

  lemma {:induction false} AddFrameExpands(runs: seq<PadRun>, mask: nat)
    ensures Expand(AddFrame(runs, mask)) == Expand(runs) + [mask]
  {
    if |runs| > 0 && runs[|runs| - 1].mask == mask {
      ExpandLonger(runs);
    } else {
      ExpandAppend(runs, PadRun(mask, 1));
      RepeatLonger(mask, 0);
    }
  }

  lemma AddFrameKeepsCompact(runs: seq<PadRun>, mask: nat, limit: nat)
    requires Compact(runs, limit) && mask < 0x1_0000
    ensures Compact(AddFrame(runs, mask), limit + 1)
  {
  }

  /** Run-length encoding: the runs stand for the frames, none is empty and no two neighbours hold the same word. */
  method RunsOf(frames: seq<nat>) returns (runs: seq<PadRun>)
    requires forall i :: 0 <= i < |frames| ==> frames[i] < 0x1_0000
    ensures Expand(runs) == frames && Compact(runs, |frames|)
    ensures |runs| == 0 <==> |frames| == 0
  {
    runs := [];
    var i := 0;
    while i < |frames|
      invariant 0 <= i <= |frames|
      invariant Expand(runs) == frames[..i] && Compact(runs, i)
      invariant |runs| == 0 <==> i == 0
    {
      assert frames[..i + 1] == frames[..i] + [frames[i]];
      AddFrameExpands(runs, frames[i]);
      AddFrameKeepsCompact(runs, frames[i], i);
      runs := AddFrame(runs, frames[i]);
      i := i + 1;
    }
    assert frames[..|frames|] == frames;
  }

  /** A file of whole absolute frames migrates exactly when none of its runs outgrows the 32-bit frame count, and
      what is written parses to one unkeyed phase on an unknown card whose runs expand to the source's own frames. */
  method Migrate(source: seq<Byte>) returns (out: Option<seq<Byte>>, ghost runs: seq<PadRun>)
    ensures |source| == 0 || IsPhaseKeyed(source) || |source| % 2 != 0 ==> out.None?
    ensures |source| > 0 && !IsPhaseKeyed(source) && |source| % 2 == 0 ==>
              && FrameBytes(Expand(runs)) == source && Compact(runs, |source|)
              && (out.Some? <==> forall k :: 0 <= k < |runs| ==> runs[k].frames < 0x1_0000_0000)
    ensures out.Some? ==> Parse(out.value) == Ok(Recording(0, seq(32, _ => 0), [Segment(UNKEYED_PHASE, runs)]))
  {
    runs := [];
    var frames := AbsoluteMasks(source);
    if frames.None? {
      return None, runs;
    }
    var found := RunsOf(frames.value);
    runs := found;
    var segment := Segment(UNKEYED_PHASE, found);
    var recording := Recording(0, seq(32, _ => 0), [segment]);
    assert recording.segments[0] == segment;
    if recording.Prints() {
      assert recording.segments[0].Packs();
      ParseOfPrintIff(recording);
    } else {
      assert !segment.Packs();
    }
    return Print(recording), runs;
  }

  /** The parser's loop over the records of a file. */
  method ParseFile(data: seq<Byte>) returns (parsed: Parsed<Recording>)
    ensures parsed == Parse(data)
  {
    if !IsPhaseKeyed(data) {
      return Refused(NotPhaseKeyed);
    }
    if |data| < HEADER_BYTES {
      return Refused(TruncatedHeader);
    }
    if Value(data[8..12]) != VERSION {
      return Refused(UnsupportedVersion);
    }
    if Value(data[12..16]) > 2 {
      return Refused(UnknownCardKind);
    }
    var segments: seq<Segment> := [];
    var at := HEADER_BYTES;
    while at < |data|
      invariant HEADER_BYTES <= at <= |data|
      invariant ParseRecords(data, HEADER_BYTES, []) == ParseRecords(data, at, segments)
    {
      var record := ParseRecord(data, at, segments);
      if record.Refused? {
        return Refused(record.defect);
      }
      at, segments := record.value.0, record.value.1;
    }
    if !EndsWithFrames(segments) {
      return Refused(NoFrames);
    }
    return Ok(Recording(Value(data[12..16]), data[16..48], segments));
  }
}
