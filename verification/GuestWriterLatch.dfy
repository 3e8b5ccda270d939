/** The shadow call stack that attributes guest stores: a 64-frame ring, against the unbounded stack it stands for. */
module GuestWriterLatches {
  import opened GuestTypes

  const DEPTH := 64
  const JAL_RETURN_OFFSET := 8

  datatype Frame = Frame(entry: Word, returnPc: Word)

  /** One block entry: its pc, ra, the GPR file and the instruction word at ra - 8. */
  datatype Entry = Entry(pc: Word, ra: Word, gpr: seq<Word>, callWord: Word)

  /** The word before the return address is a `jal` to the entry, or a `jalr` through a register still holding it. */
  predicate CallsTo(callWord: Word, entry: Word, returnPc: Word, gpr: seq<Word>) {
    var opcode := callWord / 0x400_0000;
    if opcode == 3 then
      var site := (returnPc - JAL_RETURN_OFFSET) % 0x1_0000_0000;
      var target := site / 0x1000_0000 * 0x1000_0000 + callWord % 0x400_0000 * 4;
      target % 0x2000_0000 == entry % 0x2000_0000
    else
      var register := callWord / 0x20_0000 % 32;
      opcode == 0 && callWord % 0x40 == 9 && register < |gpr| && gpr[register] == entry
  }

  /** What a block entry does to the decoded call word: it is refreshed only when ra moved and no return was seen. */
  datatype Decoded = Decoded(ra: Word, callWord: Word)

  function Decode(d: Decoded, e: Entry): Decoded {
    if e.ra != d.ra then Decoded(e.ra, e.callWord) else d
  }

  // ---- which words are calls -------------------------------------------------------------------------

  const REGION := 0x1000_0000

  /** Where the word before a return address stands, its delay slot between the two. */
  function SiteOf(returnPc: Word): Word {
    (returnPc - 8) % 0x1_0000_0000
  }

  /** `jal target`, as an assembler writes it. */
  function Jal(target: Word): Word {
    0x0C00_0000 + target % REGION / 4
  }

  /** The word is a `jal` whose target, taken in the 256 MB region of `site`, is this one. */
  predicate JalReaches(word: Word, site: Word, target: Word) {
    word == Jal(target) && target % 4 == 0 && target / REGION == site / REGION
  }

  /** The word is `jalr rd, r` through register r, whatever its other fields hold. */
  predicate JalrThrough(word: Word, r: nat) {
    r < 32 && 0 <= word - 0x20_0000 * r < 0x20_0000 && (word - 0x20_0000 * r) % 0x40 == 9
  }

  /** The word at the site calls the entry: a `jal` to its physical address, or a `jalr` through a register that still
      holds it. */
  ghost predicate IsCall(word: Word, site: Word, entry: Word, gpr: seq<Word>) {
    || (exists target: Word :: JalReaches(word, site, target) && Physical(target) == Physical(entry))
    || (exists r: nat :: r < |gpr| && JalrThrough(word, r) && gpr[r] == entry)
  }

  lemma {:induction false} JalTarget(word: Word, site: Word) returns (target: Word)
    requires word / 0x400_0000 == 3
    ensures target == site / REGION * REGION + word % 0x400_0000 * 4
    ensures forall other: Word :: JalReaches(word, site, other) <==> other == target
  {
    var index, base := word % 0x400_0000, site / REGION;
    assert word == 0x0C00_0000 + index;
    target := base * REGION + index * 4;
    assert target / REGION == base && target % REGION == index * 4;
    forall other: Word ensures JalReaches(word, site, other) <==> other == target {
      if JalReaches(word, site, other) {
        assert other == other / REGION * REGION + other % REGION;
        assert other % REGION % 4 == 0;
        assert other % REGION == 4 * index;
      }
    }
  }

  lemma {:induction false} JalrRegister(word: Word, r: nat)
    ensures JalrThrough(word, r) <==> word / 0x400_0000 == 0 && word % 0x40 == 9 && word / 0x20_0000 % 32 == r
  {
    var quotient, low := word / 0x20_0000, word % 0x20_0000;
    assert word == 0x20_0000 * quotient + low && word % 0x40 == low % 0x40 by {
      assert word == 0x40 * (0x8000 * quotient) + low;
      SameLowBits(word, low, 0x8000 * quotient);
    }
    assert 0 <= word - 0x20_0000 * r < 0x20_0000 <==> r == quotient;
    assert word / 0x400_0000 == 0 <==> quotient < 32;
  }

  lemma SameLowBits(a: nat, b: nat, n: nat)
    requires a == 0x40 * n + b
    ensures a % 0x40 == b % 0x40
  {
  }

  /** The decoder answers exactly for the words that are calls, at every site, target, register and region. */
  lemma {:induction false} CallsToIff(word: Word, entry: Word, returnPc: Word, gpr: seq<Word>)
    ensures CallsTo(word, entry, returnPc, gpr) <==> IsCall(word, SiteOf(returnPc), entry, gpr)
  {
    forall r: nat
      ensures JalrThrough(word, r) <==> word / 0x400_0000 == 0 && word % 0x40 == 9 && word / 0x20_0000 % 32 == r
    {
      JalrRegister(word, r);
    }
    if word / 0x400_0000 == 3 {
      var target := JalTarget(word, SiteOf(returnPc));
      assert JalReaches(word, SiteOf(returnPc), target);
    }
  }

  /** The processor takes the region from the delay slot, one word on; that is another target exactly when the `jal` is
      the last word of its region. */
  lemma {:induction false} LastWordOfARegionIff(word: Word, site: Word, target: Word)
    requires JalReaches(word, site, target) && site % 4 == 0
    ensures JalReaches(word, (site + 4) % 0x1_0000_0000, target) <==> site % REGION != REGION - 4
  {
  }

  // ---- the unbounded stack ---------------------------------------------------------------------------

  datatype CallStack = CallStack(frames: seq<Frame>, decoded: Decoded)

  /** The highest index below n whose frame returns to pc, or -1. */
  function LastReturningTo(frames: seq<Frame>, n: nat, pc: Word): (i: int)
    requires n <= |frames|
    ensures -1 <= i < n
    ensures i >= 0 ==> frames[i].returnPc == pc
    ensures forall k :: i < k < n ==> frames[k].returnPc != pc
  {
    if n == 0 then -1 else if frames[n - 1].returnPc == pc then n - 1 else LastReturningTo(frames, n - 1, pc)
  }

  /** A block entry on the stack; `called` tells whether the decoded word calls this block from ra. */
  function EnterWith(s: CallStack, pc: Word, ra: Word, d: Decoded, called: bool): CallStack {
    var n := |s.frames|;
    if n != 0 && pc == s.frames[n - 1].returnPc then s.(frames := s.frames[..n - 1])
    else if pc == ra then
      var i := if n == 0 then -1 else LastReturningTo(s.frames, n - 1, pc);
      if i >= 0 then s.(frames := s.frames[..i]) else s
    else if !called || (n != 0 && s.frames[n - 1] == Frame(pc, ra)) then s.(decoded := d)
    else CallStack(s.frames + [Frame(pc, ra)], d)
  }

  function Enter(s: CallStack, e: Entry): CallStack {
    var d := Decode(s.decoded, e);
    EnterWith(s, e.pc, e.ra, d, CallsTo(d.callWord, e.pc, e.ra, e.gpr))
  }

  function EnterAll(s: CallStack, entries: seq<Entry>): CallStack {
    if |entries| == 0 then s else Enter(EnterAll(s, entries[..|entries| - 1]), entries[|entries| - 1])
  }

  // ---- the ring --------------------------------------------------------------------------------------

  datatype Ring = Ring(frames: seq<Frame>, depth: nat, decoded: Decoded) {
    predicate Valid() {
      |frames| == DEPTH
    }

    function Top(): nat
      requires depth != 0
    {
      (depth - 1) % DEPTH
    }

    /** What the ring answers when asked who is storing: the top slot's entry, or 0 for nobody. */
    function Function(): Word
      requires Valid()
    {
      if depth != 0 then frames[Top()].entry else 0
    }
  }

  /** How many frames below the top the search looks: at most the ring's other slots. */
  function Reach(r: Ring): nat
    requires r.depth != 0
  {
    (if r.depth < DEPTH then r.depth else DEPTH) - 1
  }

  /** With `left` of them still to look at, nearest first, how far below the top the first frame returning to pc lies,
      or 0. */
  function Behind(r: Ring, left: nat, pc: Word): (b: nat)
    requires r.Valid() && r.depth != 0 && left <= Reach(r)
    ensures b != 0 ==> Reach(r) - left < b <= Reach(r)
    decreases left
  {
    if left == 0 then 0
    else
      var i := Reach(r) + 1 - left;
      if r.frames[(r.Top() + DEPTH - i) % DEPTH].returnPc == pc then i else Behind(r, left - 1, pc)
  }

  /** A block entry on the ring. The depth is a natural number throughout: no return can take it below zero. */
  function EnterRingWith(r: Ring, pc: Word, ra: Word, d: Decoded, called: bool): (after: Ring)
    requires r.Valid()
    ensures after.Valid()
  {
    if r.depth != 0 && pc == r.frames[r.Top()].returnPc then r.(depth := r.depth - 1)
    else if pc == ra then
      var b := if r.depth == 0 then 0 else Behind(r, Reach(r), pc);
      if b != 0 then r.(depth := r.depth - (b + 1)) else r
    else if !called || (r.depth != 0 && r.frames[r.Top()] == Frame(pc, ra)) then r.(decoded := d)
    else Ring(r.frames[r.depth % DEPTH := Frame(pc, ra)], r.depth + 1, d)
  }

  function EnterRing(r: Ring, e: Entry): (after: Ring)
    requires r.Valid()
    ensures after.Valid()
  {
    var d := Decode(r.decoded, e);
    EnterRingWith(r, e.pc, e.ra, d, CallsTo(d.callWord, e.pc, e.ra, e.gpr))
  }

  function EnterRingAll(r: Ring, entries: seq<Entry>): (after: Ring)
    requires r.Valid()
    ensures after.Valid()
  {
    if |entries| == 0 then r else EnterRing(EnterRingAll(r, entries[..|entries| - 1]), entries[|entries| - 1])
  }

  lemma OneMoreEntry(r: Ring, s: CallStack, entries: seq<Entry>, e: Entry)
    requires r.Valid()
    ensures EnterRingAll(r, entries + [e]) == EnterRing(EnterRingAll(r, entries), e)
    ensures EnterAll(s, entries + [e]) == Enter(EnterAll(s, entries), e)
  {
    assert (entries + [e])[..|entries|] == entries;
  }

  const EMPTY_RING := Ring(seq(DEPTH, _ => Frame(0, 0)), 0, Decoded(1, 0))
  const EMPTY_STACK := CallStack([], Decoded(1, 0))

  // ---- when a frame is opened ------------------------------------------------------------------------

  /** The kept call word is the one before the kept ra, unless nothing was kept yet. */
  ghost predicate Remembers(r: Ring, code: Word -> Word) {
    r.decoded.ra != 1 ==> r.decoded.callWord == code(SiteOf(r.decoded.ra))
  }

  /** Every entry was handed the word before its ra. */
  ghost predicate ReadFrom(entries: seq<Entry>, code: Word -> Word) {
    forall i :: 0 <= i < |entries| ==> entries[i].callWord == code(SiteOf(entries[i].ra))
  }

  lemma {:induction false} RunRemembers(r: Ring, entries: seq<Entry>, code: Word -> Word)
    requires r.Valid() && Remembers(r, code) && ReadFrom(entries, code)
    ensures Remembers(EnterRingAll(r, entries), code)
  {
    if |entries| > 0 {
      RunRemembers(r, entries[..|entries| - 1], code);
    }
  }

  /** The block is the return address of the innermost frame, or its own. */
  predicate ComesBack(r: Ring, e: Entry)
    requires r.Valid()
  {
    e.pc == e.ra || (r.depth != 0 && e.pc == r.frames[r.Top()].returnPc)
  }

  predicate LoopsBack(r: Ring, e: Entry)
    requires r.Valid()
  {
    r.depth != 0 && r.frames[r.Top()] == Frame(e.pc, e.ra)
  }

  /** After any run over unchanging code from a cleared ring, an entry opens a frame, which is then the innermost, if
      and only if it is no return, no loop back, and the word before its ra calls it. Nothing else writes a slot, and
      only a return closes a frame. */
  lemma {:induction false} FrameIsOpenedIff(ring: Ring, code: Word -> Word, entries: seq<Entry>, e: Entry)
    requires ring.Valid() && ring.decoded.ra == 1 && ReadFrom(entries + [e], code) && e.ra != 1
    ensures var before := EnterRingAll(ring.(depth := 0), entries);
            var after := EnterRingAll(ring.(depth := 0), entries + [e]);
            && (after.depth > before.depth <==>
                !ComesBack(before, e) && !LoopsBack(before, e) && IsCall(code(SiteOf(e.ra)), SiteOf(e.ra), e.pc, e.gpr))
            && (after.depth > before.depth ==>
                  after.depth == before.depth + 1 && after.frames == before.frames[after.Top() := Frame(e.pc, e.ra)])
            && (after.depth <= before.depth ==> after.frames == before.frames)
            && (!ComesBack(before, e) ==> after.depth >= before.depth)
  {
    var start := ring.(depth := 0);
    var before := EnterRingAll(start, entries);
    assert ReadFrom(entries, code) by {
      forall i | 0 <= i < |entries| ensures entries[i].callWord == code(SiteOf(entries[i].ra)) {
        assert (entries + [e])[i] == entries[i];
      }
    }
    assert e.callWord == code(SiteOf(e.ra)) by {
      assert (entries + [e])[|entries|] == e;
    }
    RunRemembers(start, entries, code);
    OneMoreEntry(start, EMPTY_STACK, entries, e);
    CallsToIff(Decode(before.decoded, e).callWord, e.pc, e.ra, e.gpr);
  }

  /** A return closes the call stack down to the innermost frame that returns here, that one included; at an address
      that is not ra only the innermost frame of all counts. Nothing else closes one. */
  lemma {:induction false} ReturnClosesIff(s: CallStack, e: Entry)
    ensures var n, after := |s.frames|, Enter(s, e);
            && (|after.frames| < n <==>
                exists i :: 0 <= i < n && s.frames[i].returnPc == e.pc && (i == n - 1 || e.pc == e.ra))
            && (|after.frames| < n ==>
                  && after.frames == s.frames[..|after.frames|] && s.frames[|after.frames|].returnPc == e.pc
                  && forall i :: |after.frames| < i < n ==> s.frames[i].returnPc != e.pc)
  {
    var n := |s.frames|;
    if n > 0 && e.pc == e.ra && e.pc != s.frames[n - 1].returnPc {
      var last := LastReturningTo(s.frames, n - 1, e.pc);
      assert last >= 0 ==> s.frames[last].returnPc == e.pc;
    }
    if n > 0 && e.pc == s.frames[n - 1].returnPc {
      assert s.frames[n - 1].returnPc == e.pc;
    }
  }

  // ---- refinement ------------------------------------------------------------------------------------

  /** The ring beside the stack it stands for. The stack's lowest `lost` frames have been overwritten, the highest
      of them by `over`. */
  datatype Tracked = Tracked(ring: Ring, stack: CallStack, lost: nat, over: Frame) {
    function Depth(): nat {
      |stack.frames|
    }
  }

  /** Above the lost frames the ring holds the stack, frame for frame. */
  ghost predicate Holds(t: Tracked) {
    && t.ring.Valid() && t.ring.decoded == t.stack.decoded
    && t.ring.depth == t.Depth() && t.lost <= t.Depth() <= t.lost + DEPTH
    && (forall k :: t.lost <= k < t.Depth() ==> t.ring.frames[k % DEPTH] == t.stack.frames[k])
    && (t.lost > 0 ==> t.ring.frames[(t.lost - 1) % DEPTH] == t.over)
  }

  /** The innermost call is not a lost one. */
  ghost predicate Sound(t: Tracked) {
    t.lost < t.Depth() || t.lost == 0
  }

  /** The highest index in [floor, n) whose slot returns to pc, or -1. */
  function LastSeen(r: Ring, n: nat, floor: nat, pc: Word): (i: int)
    requires r.Valid()
    ensures -1 <= i < n && (i >= 0 ==> floor <= i)
  {
    if n <= floor then -1
    else if r.frames[(n - 1) % DEPTH].returnPc == pc then n - 1
    else LastSeen(r, n - 1, floor, pc)
  }

  /** The lowest frame index the search reaches. */
  function Floor(r: Ring): nat {
    if r.depth < DEPTH then 0 else r.depth - DEPTH
  }

  lemma SlotBehind(depth: nat, i: nat)
    requires depth > 0 && i < depth && i < DEPTH
    ensures ((depth - 1) % DEPTH + DEPTH - i) % DEPTH == (depth - 1 - i) % DEPTH
  {
  }

  lemma {:induction false} BehindIsLastSeen(r: Ring, left: nat, pc: Word)
    requires r.Valid() && r.depth != 0 && left <= Reach(r)
    ensures var last := LastSeen(r, Floor(r) + left, Floor(r), pc);
            Behind(r, left, pc) == if last >= 0 then r.depth - 1 - last else 0
  {
    if left > 0 {
      var i := Reach(r) + 1 - left;
      SlotBehind(r.depth, i);
      assert r.depth - 1 - i == Floor(r) + left - 1;
      BehindIsLastSeen(r, left - 1, pc);
    }
  }

  /** Down to the lost frames the ring sees what the stack has; below them it sees what overwrote them. */
  lemma {:induction false} SeenAboveLost(t: Tracked, n: nat, pc: Word)
    requires Holds(t) && t.lost <= n <= t.Depth()
    ensures var last := LastReturningTo(t.stack.frames, n, pc);
            LastSeen(t.ring, n, Floor(t.ring), pc) ==
            if last >= t.lost then last else LastSeen(t.ring, t.lost, Floor(t.ring), pc)
    decreases n
  {
    if n > t.lost {
      assert t.ring.frames[(n - 1) % DEPTH] == t.stack.frames[n - 1];
      SeenAboveLost(t, n - 1, pc);
    }
  }

  /** The slot where the top of the stack should be. */
  function TopSlot(t: Tracked): Frame
    requires t.ring.Valid() && t.Depth() > 0
  {
    t.ring.frames[(t.Depth() - 1) % DEPTH]
  }

  /** What a caller of `enterBlock` could check first: a return matches the top of both or of neither; an unmatched one
      is not answered by a lost frame or its overwriter alone; and a call is not a loop back on one of them only. */
  ghost predicate Answerable(t: Tracked, pc: Word, ra: Word, called: bool)
    requires t.ring.Valid()
  {
    var n := t.Depth();
    n == 0 ||
    var top, slot := t.stack.frames[n - 1], TopSlot(t);
    if pc == top.returnPc || pc == slot.returnPc then top.returnPc == slot.returnPc
    else if pc == ra then
      var last := LastReturningTo(t.stack.frames, n - 1, pc);
      last >= t.lost || LastSeen(t.ring, if t.lost < n then t.lost else n - 1, Floor(t.ring), pc) == last
    else called ==> (top == Frame(pc, ra) <==> slot == Frame(pc, ra))
  }

  /** The decoded word calls this block from ra. */
  predicate Called(s: CallStack, e: Entry) {
    CallsTo(Decode(s.decoded, e).callWord, e.pc, e.ra, e.gpr)
  }

  /** Both after one block entry. A push at a full ring loses one more frame; unwinding past lost ones leaves none. */
  function Follow(t: Tracked, ring: Ring, stack: CallStack): Tracked
    requires ring.Valid()
  {
    var n := |stack.frames|;
    if n > t.lost + DEPTH then Tracked(ring, stack, n - DEPTH, stack.frames[n - 1])
    else if n < t.lost then Tracked(ring, stack, n, if n > 0 then ring.frames[(n - 1) % DEPTH] else t.over)
    else Tracked(ring, stack, t.lost, if n > t.Depth() && n == t.lost + DEPTH then stack.frames[n - 1] else t.over)
  }

  function EnterBoth(t: Tracked, e: Entry): Tracked
    requires t.ring.Valid()
  {
    Follow(t, EnterRing(t.ring, e), Enter(t.stack, e))
  }

  function EnterBothAll(t: Tracked, entries: seq<Entry>): (after: Tracked)
    requires t.ring.Valid()
    ensures after.ring.Valid()
    ensures after.ring == EnterRingAll(t.ring, entries) && after.stack == EnterAll(t.stack, entries)
  {
    if |entries| == 0 then t else EnterBoth(EnterBothAll(t, entries[..|entries| - 1]), entries[|entries| - 1])
  }

  lemma TopIsLast(t: Tracked)
    requires Holds(t) && Sound(t) && t.Depth() > 0
    ensures t.ring.frames[t.ring.Top()] == t.stack.frames[t.Depth() - 1]
  {
  }

  lemma PopKeepsHolding(t: Tracked, n: nat)
    requires Holds(t) && n <= t.Depth()
    ensures Holds(Follow(t, t.ring.(depth := n), t.stack.(frames := t.stack.frames[..n])))
  {
    var after := Follow(t, t.ring.(depth := n), t.stack.(frames := t.stack.frames[..n]));
    forall k | after.lost <= k < n ensures after.ring.frames[k % DEPTH] == after.stack.frames[k] {
      assert t.ring.frames[k % DEPTH] == t.stack.frames[k];
    }
  }

  lemma SlotsDiffer(k: nat, n: nat)
    requires k < n < k + DEPTH
    ensures k % DEPTH != n % DEPTH
  {
  }

  lemma {:induction false} PushKeepsHolding(t: Tracked, frame: Frame, d: Decoded)
    requires Holds(t)
    ensures Holds(Follow(t, Ring(t.ring.frames[t.ring.depth % DEPTH := frame], t.ring.depth + 1, d),
                         CallStack(t.stack.frames + [frame], d)))
  {
    var n := t.Depth();
    var after := Follow(t, Ring(t.ring.frames[n % DEPTH := frame], n + 1, d), CallStack(t.stack.frames + [frame], d));
    forall k | after.lost <= k < n ensures after.ring.frames[k % DEPTH] == after.stack.frames[k] {
      SlotsDiffer(k, n);
      assert t.ring.frames[k % DEPTH] == t.stack.frames[k];
    }
    if 0 < after.lost && n + 1 < after.lost + DEPTH {
      SlotsDiffer(after.lost - 1, n);
    }
  }

  /** An unmatched return: the ring finds what the stack finds exactly when it is answerable. */
  lemma {:induction false} SearchesAgreeIff(t: Tracked, pc: Word)
    requires Holds(t) && t.Depth() > 0
    ensures var n := t.Depth();
            var last := LastReturningTo(t.stack.frames, n - 1, pc);
            LastSeen(t.ring, n - 1, Floor(t.ring), pc) == last <==>
            last >= t.lost || LastSeen(t.ring, if t.lost < n then t.lost else n - 1, Floor(t.ring), pc) == last
  {
    if t.lost < t.Depth() {
      SeenAboveLost(t, t.Depth() - 1, pc);
    }
  }

  lemma {:induction false} UnmatchedReturnIff(t: Tracked, pc: Word, called: bool)
    requires Holds(t) && t.Depth() > 0
    requires pc != t.stack.frames[t.Depth() - 1].returnPc && pc != TopSlot(t).returnPc
    ensures var n := t.Depth();
            var b, last := Behind(t.ring, Reach(t.ring), pc), LastReturningTo(t.stack.frames, n - 1, pc);
            Answerable(t, pc, pc, called) <==> (if b != 0 then n - (b + 1) else n) == (if last >= 0 then last else n)
  {
    assert Floor(t.ring) + Reach(t.ring) == t.Depth() - 1;
    BehindIsLastSeen(t.ring, Reach(t.ring), pc);
    SearchesAgreeIff(t, pc);
  }

  lemma {:induction false} UnmatchedReturnKeepsHoldingIff(t: Tracked, pc: Word, d: Decoded, called: bool)
    requires Holds(t) && t.Depth() > 0
    requires pc != t.stack.frames[t.Depth() - 1].returnPc && pc != TopSlot(t).returnPc
    ensures var ring, stack := EnterRingWith(t.ring, pc, pc, d, called), EnterWith(t.stack, pc, pc, d, called);
            && (Answerable(t, pc, pc, called) <==> ring.depth == |stack.frames|)
            && (ring.depth == |stack.frames| ==> Holds(Follow(t, ring, stack)))
  {
    var n := t.Depth();
    UnmatchedReturnIff(t, pc, called);
    var last := LastReturningTo(t.stack.frames, n - 1, pc);
    PopKeepsHolding(t, if last >= 0 then last else n);
    assert t.stack.frames[..n] == t.stack.frames && t.ring.(depth := n) == t.ring;
  }

  /** One block entry leaves ring and stack at the same depth exactly when it is answerable, and then the ring still
      holds the stack; the innermost call may be a lost one before it, after it, or both. */
  lemma {:induction false} EnterWithKeepsHoldingIff(t: Tracked, pc: Word, ra: Word, d: Decoded, called: bool)
    requires Holds(t)
    ensures var ring, stack := EnterRingWith(t.ring, pc, ra, d, called), EnterWith(t.stack, pc, ra, d, called);
            && (Answerable(t, pc, ra, called) <==> ring.depth == |stack.frames|)
            && (Answerable(t, pc, ra, called) ==> Holds(Follow(t, ring, stack)))
  {
    var n := t.Depth();
    if n != 0 && pc == t.stack.frames[n - 1].returnPc && pc == TopSlot(t).returnPc {
      PopKeepsHolding(t, n - 1);
    } else if n != 0 && (pc == t.stack.frames[n - 1].returnPc || pc == TopSlot(t).returnPc) {
    } else if pc == ra {
      if n != 0 {
        UnmatchedReturnKeepsHoldingIff(t, pc, d, called);
      }
    } else if called && !(n != 0 && t.stack.frames[n - 1] == Frame(pc, ra)) {
      PushKeepsHolding(t, Frame(pc, ra), d);
    }
  }

  lemma EnterKeepsHoldingIff(t: Tracked, e: Entry)
    requires Holds(t)
    ensures var after := EnterBoth(t, e);
            && (Answerable(t, e.pc, e.ra, Called(t.stack, e)) <==> after.ring.depth == after.Depth())
            && (Answerable(t, e.pc, e.ra, Called(t.stack, e)) ==> Holds(after))
  {
    EnterWithKeepsHoldingIff(t, e.pc, e.ra, Decode(t.stack.decoded, e), Called(t.stack, e));
  }

  /** Every entry so far was answerable. */
  ghost predicate Followed(t: Tracked, entries: seq<Entry>)
    requires t.ring.Valid()
  {
    |entries| == 0 ||
    var before, last := EnterBothAll(t, entries[..|entries| - 1]), entries[|entries| - 1];
    Followed(t, entries[..|entries| - 1]) && Answerable(before, last.pc, last.ra, Called(before.stack, last))
  }

  lemma {:induction false} RunKeepsHolding(t: Tracked, entries: seq<Entry>)
    requires Holds(t) && Followed(t, entries)
    ensures Holds(EnterBothAll(t, entries))
  {
    if |entries| > 0 {
      var init := entries[..|entries| - 1];
      RunKeepsHolding(t, init);
      EnterKeepsHoldingIff(EnterBothAll(t, init), entries[|entries| - 1]);
    }
  }

  /** The innermost open call of the stack; 0 when there is none. */
  function Innermost(s: CallStack): Word {
    if |s.frames| == 0 then 0 else s.frames[|s.frames| - 1].entry
  }

  /** Ring and stack report the same depth and the same innermost function. */
  ghost predicate Agree(t: Tracked) {
    t.ring.Valid() && t.ring.depth == t.Depth() && t.ring.Function() == Innermost(t.stack)
  }

  /** At a lost frame the ring names whatever overwrote it, and is right exactly when the two entries are equal. */
  lemma LostFrameIsNamedByItsOverwriter(t: Tracked)
    requires Holds(t)
    ensures !Sound(t) ==> t.ring.Function() == t.over.entry
    ensures Agree(t) <==> Sound(t) || t.over.entry == Innermost(t.stack)
  {
    if Sound(t) && t.Depth() > 0 {
      TopIsLast(t);
    }
  }

  /** Coming to depth n, the ring will be right: the stack is empty there, or the frame is a live one, or what overwrote
      it names the same function. */
  ghost predicate RightAt(t: Tracked, n: nat)
    requires t.ring.Valid()
  {
    n == 0 || n > t.lost || n > t.Depth() || t.ring.frames[(n - 1) % DEPTH].entry == t.stack.frames[n - 1].entry
  }

  lemma {:induction false} PopsTouchNoSlot(t: Tracked, e: Entry)
    requires Holds(t) && |Enter(t.stack, e).frames| <= t.Depth()
    requires EnterRing(t.ring, e).depth == |Enter(t.stack, e).frames|
    ensures EnterRing(t.ring, e).frames == t.ring.frames
    ensures Enter(t.stack, e).frames == t.stack.frames[..|Enter(t.stack, e).frames|]
  {
  }

  lemma {:induction false} EntryAgreesIff(t: Tracked, e: Entry)
    requires Holds(t)
    ensures Agree(EnterBoth(t, e)) <==>
            Answerable(t, e.pc, e.ra, Called(t.stack, e)) && RightAt(t, |Enter(t.stack, e).frames|)
  {
    var after, n := EnterBoth(t, e), |Enter(t.stack, e).frames|;
    EnterKeepsHoldingIff(t, e);
    if Answerable(t, e.pc, e.ra, Called(t.stack, e)) {
      if n <= t.Depth() {
        PopsTouchNoSlot(t, e);
        if t.lost < n {
          assert t.ring.frames[(n - 1) % DEPTH] == t.stack.frames[n - 1];
        }
      } else {
        assert Sound(after);
        LostFrameIsNamedByItsOverwriter(after);
      }
    }
  }

  lemma {:induction false} OneMoreBoth(t: Tracked, entries: seq<Entry>, e: Entry)
    requires t.ring.Valid()
    ensures EnterBothAll(t, entries + [e]) == EnterBoth(EnterBothAll(t, entries), e)
  {
    assert (entries + [e])[..|entries|] == entries;
  }

  /** A ring with no call open, whatever its slots still hold, beside the empty stack. */
  function Cleared(ring: Ring): Tracked {
    Tracked(ring.(depth := 0), CallStack([], ring.decoded), 0, Frame(0, 0))
  }

  /** From any cleared ring, for every run whose entries were all answerable, at any nesting and on a lost frame or not,
      and for every next entry: ring and stack come to the same depth if and only if that entry is answerable, and to
      the same innermost function if and only if also that depth is not a lost frame of another function. An answerable
      call never comes to one, so it puts a ring that named the wrong function right again. */
  lemma {:induction false} RingFollowsTheCallStackIff(ring: Ring, entries: seq<Entry>, e: Entry)
    requires ring.Valid() && Followed(Cleared(ring), entries)
    ensures var before, after := EnterBothAll(Cleared(ring), entries), EnterBothAll(Cleared(ring), entries + [e]);
            var answerable := Answerable(before, e.pc, e.ra, Called(before.stack, e));
            && before.ring.depth == before.Depth() && (Sound(before) ==> Agree(before))
            && (after.ring.depth == after.Depth() <==> answerable)
            && (Agree(after) <==> answerable && RightAt(before, after.Depth()))
  {
    RunKeepsHolding(Cleared(ring), entries);
    var before := EnterBothAll(Cleared(ring), entries);
    LostFrameIsNamedByItsOverwriter(before);
    OneMoreBoth(Cleared(ring), entries, e);
    EnterKeepsHoldingIff(before, e);
    EntryAgreesIff(before, e);
  }

  /** Nesting stays within 64 at every point of the run. */
  ghost predicate Shallow(s: CallStack, entries: seq<Entry>) {
    |entries| == 0 || (Shallow(s, entries[..|entries| - 1]) && |EnterAll(s, entries).frames| <= DEPTH)
  }

  lemma {:induction false} ShallowRunsLoseNothing(ring: Ring, entries: seq<Entry>)
    requires ring.Valid() && Shallow(Cleared(ring).stack, entries)
    ensures Followed(Cleared(ring), entries) && EnterBothAll(Cleared(ring), entries).lost == 0
  {
    if |entries| > 0 {
      var init, last := entries[..|entries| - 1], entries[|entries| - 1];
      ShallowRunsLoseNothing(ring, init);
      RunKeepsHolding(Cleared(ring), init);
      var before := EnterBothAll(Cleared(ring), init);
      if before.Depth() > 0 {
        TopIsLast(before);
      }
      assert EnterBothAll(Cleared(ring), entries) == EnterBoth(before, last);
    }
  }

  /** In particular, from any cleared ring, for every run whose nesting never exceeds 64 no frame is lost and the ring
      reports the depth and the innermost function of the unbounded call stack. */
  lemma {:induction false} RingIsTheCallStack(ring: Ring, entries: seq<Entry>)
    requires ring.Valid() && Shallow(Cleared(ring).stack, entries)
    ensures var r, s := EnterRingAll(Cleared(ring).ring, entries), EnterAll(Cleared(ring).stack, entries);
            r.depth == |s.frames| && r.Function() == Innermost(s)
  {
    ShallowRunsLoseNothing(ring, entries);
    RunKeepsHolding(Cleared(ring), entries);
    LostFrameIsNamedByItsOverwriter(EnterBothAll(Cleared(ring), entries));
  }

  // ---- one frame deeper ------------------------------------------------------------------------------

  function EntryOf(k: nat): Word
    requires k <= DEPTH
  {
    0x1_0000 + 0x100 * k
  }

  function ReturnOf(k: nat): Word
    requires k <= DEPTH
  {
    0x8_0000 + 0x100 * k
  }

  /** `jalr $v0`: register 2, function 9. */
  const JALR_V0: Word := 0x40_0009

  /** The k-th of 65 nested calls, and the return from it. */
  function CallInto(k: nat): Entry
    requires k <= DEPTH
  {
    Entry(EntryOf(k), ReturnOf(k), [0, 0, EntryOf(k)], JALR_V0)
  }

  function ReturnFrom(k: nat): Entry
    requires k <= DEPTH
  {
    Entry(ReturnOf(k), 0, [], 0)
  }

  function Calls(n: nat): (entries: seq<Entry>)
    requires n <= DEPTH + 1
  {
    if n == 0 then [] else Calls(n - 1) + [CallInto(n - 1)]
  }

  function Returns(n: nat): (entries: seq<Entry>)
    requires n <= DEPTH
  {
    if n == 0 then [] else Returns(n - 1) + [ReturnFrom(DEPTH + 1 - n)]
  }

  lemma CallIsSeen(entry: Word, returnPc: Word)
    ensures CallsTo(JALR_V0, entry, returnPc, [0, 0, entry])
  {
  }

  /** The frame slot s holds after n nested calls. */
  function SlotAfter(n: nat, s: nat): Frame
    requires n <= DEPTH + 1 && s < DEPTH
  {
    if s == 0 && n == DEPTH + 1 then Frame(EntryOf(DEPTH), ReturnOf(DEPTH))
    else if s < n then Frame(EntryOf(s), ReturnOf(s))
    else Frame(0, 0)
  }

  /** The ring after n nested calls. */
  ghost predicate RingNested(r: Ring, n: nat)
    requires n <= DEPTH + 1
  {
    && r.Valid() && r.depth == n && r.decoded.ra == (if n == 0 then 1 else ReturnOf(n - 1))
    && forall s :: 0 <= s < DEPTH ==> r.frames[s] == SlotAfter(n, s)
  }

  /** The stack after n nested calls. */
  ghost predicate StackNested(st: CallStack, n: nat)
    requires n <= DEPTH + 1
  {
    && |st.frames| == n && st.decoded.ra == (if n == 0 then 1 else ReturnOf(n - 1))
    && forall k :: 0 <= k < n ==> st.frames[k] == Frame(EntryOf(k), ReturnOf(k))
  }

  lemma {:induction false} OneMoreRingCall(r: Ring, n: nat)
    requires n <= DEPTH && RingNested(r, n)
    ensures RingNested(EnterRing(r, CallInto(n)), n + 1)
  {
    CallIsSeen(EntryOf(n), ReturnOf(n));
    var d := Decoded(ReturnOf(n), JALR_V0);
    assert EnterRing(r, CallInto(n)) == EnterRingWith(r, EntryOf(n), ReturnOf(n), d, true);
    assert n != 0 ==> r.frames[r.Top()] == Frame(EntryOf(n - 1), ReturnOf(n - 1));
  }

  lemma {:induction false} OneMoreStackCall(st: CallStack, n: nat)
    requires n <= DEPTH && StackNested(st, n)
    ensures StackNested(Enter(st, CallInto(n)), n + 1)
  {
    CallIsSeen(EntryOf(n), ReturnOf(n));
    var d := Decoded(ReturnOf(n), JALR_V0);
    assert Enter(st, CallInto(n)) == EnterWith(st, EntryOf(n), ReturnOf(n), d, true);
  }

  lemma {:induction false} RingAfterCalls(r: Ring, n: nat)
    requires n <= DEPTH + 1 && RingNested(r, 0)
    ensures RingNested(EnterRingAll(r, Calls(n)), n)
  {
    if n > 0 {
      RingAfterCalls(r, n - 1);
      RingCallAfter(r, Calls(n - 1), n - 1, CallInto(n - 1));
    }
  }

  lemma {:induction false} RingCallAfter(r: Ring, before: seq<Entry>, n: nat, e: Entry)
    requires r.Valid() && n <= DEPTH && e == CallInto(n) && RingNested(EnterRingAll(r, before), n)
    ensures RingNested(EnterRingAll(r, before + [e]), n + 1)
  {
    OneMoreRingEntry(r, before, e);
    OneMoreRingCall(EnterRingAll(r, before), n);
  }

  lemma {:induction false} OneMoreRingEntry(r: Ring, entries: seq<Entry>, e: Entry)
    requires r.Valid()
    ensures EnterRingAll(r, entries + [e]) == EnterRing(EnterRingAll(r, entries), e)
  {
    assert (entries + [e])[..|entries|] == entries;
  }

  lemma {:induction false} StackAfterCalls(st: CallStack, n: nat)
    requires n <= DEPTH + 1 && StackNested(st, 0)
    ensures StackNested(EnterAll(st, Calls(n)), n)
  {
    if n > 0 {
      StackAfterCalls(st, n - 1);
      OneMoreEntry(EMPTY_RING, st, Calls(n - 1), CallInto(n - 1));
      OneMoreStackCall(EnterAll(st, Calls(n - 1)), n - 1);
    }
  }

  /** After 65 calls and n returns both have popped n frames and the ring's slots are as the calls left them. */
  ghost predicate Returned(r: Ring, st: CallStack, n: nat)
    requires n <= DEPTH
  {
    && r.Valid() && r.depth == DEPTH + 1 - n == |st.frames|
    && (forall s :: 0 <= s < DEPTH ==> r.frames[s] == SlotAfter(DEPTH + 1, s))
    && (forall k :: 0 <= k < |st.frames| ==> st.frames[k] == Frame(EntryOf(k), ReturnOf(k)))
  }

  lemma OneMoreReturn(r: Ring, st: CallStack, n: nat)
    requires n < DEPTH && Returned(r, st, n)
    ensures Returned(EnterRing(r, ReturnFrom(DEPTH - n)), Enter(st, ReturnFrom(DEPTH - n)), n + 1)
  {
    assert r.Top() == if n == 0 then 0 else DEPTH - n;
    assert r.frames[r.Top()].returnPc == ReturnOf(DEPTH - n);
  }

  lemma {:induction false} AfterReturns(r: Ring, st: CallStack, n: nat)
    requires n <= DEPTH && Returned(r, st, 0)
    ensures Returned(EnterRingAll(r, Returns(n)), EnterAll(st, Returns(n)), n)
  {
    if n > 0 {
      AfterReturns(r, st, n - 1);
      OneMoreEntry(r, st, Returns(n - 1), ReturnFrom(DEPTH + 1 - n));
      OneMoreReturn(EnterRingAll(r, Returns(n - 1)), EnterAll(st, Returns(n - 1)), n - 1);
    }
  }

  /** At 65 the ring is no longer the stack: 65 nested calls and then 64 returns leave one open call, and the ring names
      the deepest call's function instead of it. */
  lemma SixtyFiveDeepIsMisattributed(calls: nat, returned: nat)
    requires calls == DEPTH + 1 && returned == DEPTH
    ensures var r := EnterRingAll(EnterRingAll(EMPTY_RING, Calls(calls)), Returns(returned));
            var s := EnterAll(EnterAll(EMPTY_STACK, Calls(calls)), Returns(returned));
            && r.depth == |s.frames| == 1
            && r.Function() == EntryOf(DEPTH) && s.frames[0].entry == EntryOf(0)
            && r.Function() != s.frames[0].entry
  {
    RingAfterCalls(EMPTY_RING, calls);
    StackAfterCalls(EMPTY_STACK, calls);
    AfterReturns(EnterRingAll(EMPTY_RING, Calls(calls)), EnterAll(EMPTY_STACK, Calls(calls)), returned);
  }

  // ---- the latch object ------------------------------------------------------------------------------

  class GuestWriterLatch {
    const frames: array<Frame>
    var depth: nat
    var blockPc: Word
    var decodedRa: Word
    var callWord: Word

    ghost predicate Valid()
      reads this
    {
      frames.Length == DEPTH
    }

    ghost function Model(): Ring
      reads this, frames
    {
      Ring(frames[..], depth, Decoded(decodedRa, callWord))
    }

    constructor ()
      ensures Valid() && fresh(frames) && Model() == EMPTY_RING && blockPc == 0
    {
      frames := new Frame[DEPTH](_ => Frame(0, 0));
      depth, blockPc, decodedRa, callWord := 0, 0, 1, 0;
    }

    /** The pop-through search: the distance from the top to the nearest slot whose return address is pc, or 0. */
    method FindBehind(pc: Word) returns (behind: nat)
      requires Valid() && depth != 0
      ensures behind == Behind(Model(), Reach(Model()), pc)
    {
      ghost var reach := Reach(Model());
      var i := 1;
      while i < depth && i < DEPTH
        invariant 1 <= i <= reach + 1
        invariant Behind(Model(), reach, pc) == Behind(Model(), reach + 1 - i, pc)
        decreases DEPTH - i
      {
        if frames[((depth - 1) % DEPTH + DEPTH - i) % DEPTH].returnPc == pc {
          return i;
        }
        i := i + 1;
      }
      return 0;
    }

    method EnterBlock(pc: Word, ra: Word, gpr: seq<Word>, word: Word)
      requires Valid()
      modifies this, frames
      ensures Valid() && blockPc == pc && Model() == EnterRing(old(Model()), Entry(pc, ra, gpr, word))
    {
      blockPc := pc;
      if depth != 0 && pc == frames[(depth - 1) % DEPTH].returnPc {
        depth := depth - 1;
        return;
      }
      if pc == ra {
        if depth != 0 {
          var behind := FindBehind(pc);
          if behind != 0 {
            depth := depth - (behind + 1);
          }
        }
        return;
      }
      if ra != decodedRa {
        decodedRa, callWord := ra, word;
      }
      if !CallsTo(callWord, pc, ra, gpr) {
        return;
      }
      if depth != 0 && frames[(depth - 1) % DEPTH] == Frame(pc, ra) {
        return;
      }
      depth := depth + 1;
      frames[(depth - 1) % DEPTH] := Frame(pc, ra);
    }

    method Function() returns (entry: Word)
      requires Valid()
      ensures entry == Model().Function()
    {
      return if depth != 0 then frames[(depth - 1) % DEPTH].entry else 0;
    }

    /** Forgets every open call; the slots and the call word keep what they held. */
    method Clear()
      requires Valid()
      modifies this
      ensures Valid() && blockPc == 0
      ensures Model() == old(Model()).(depth := 0, decoded := Decoded(1, old(callWord)))
    {
      depth, blockPc, decodedRa := 0, 0, 1;
    }
  }
}
