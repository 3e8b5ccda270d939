/** The layered residency catalog: which loaded code image owns each physical address.
    Later activations win, a subtraction punches holes, an unload reveals what lies below. */
module ImageCatalogs {
  import opened GuestTypes

  datatype ImageIdentity = ImageIdentity(id: nat, generation: nat)

  datatype ImageDescription = ImageDescription(name: string, content: nat, ranges: seq<Range>)

  datatype Entry = Entry(name: string, ranges: seq<Range>, content: nat, identity: ImageIdentity, active: bool) {
    predicate Covers(p: int) {
      active && CoversAny(ranges, p)
    }

    function Description(): ImageDescription {
      ImageDescription(name, content, ranges)
    }
  }

  predicate CoversAny(ranges: seq<Range>, p: int) {
    exists k :: 0 <= k < |ranges| && ranges[k].Contains(p)
  }

  // ---- point and range ownership ----------------------------------------------------------------

  /** The newest active entry covering physical address p. */
  function Owner(entries: seq<Entry>, p: int): Option<ImageIdentity> {
    if |entries| == 0 then None
    else if entries[|entries| - 1].Covers(p) then Some(entries[|entries| - 1].identity)
    else Owner(entries[..|entries| - 1], p)
  }

  predicate Overlaps(part: Range, r: Range) {
    part.end > r.begin && part.begin < r.end
  }

  /** The first fragment, in list order, that the overlap test accepts. */
  function FirstOverlap(ranges: seq<Range>, r: Range): Option<Range> {
    if |ranges| == 0 then None
    else if FirstOverlap(ranges[..|ranges| - 1], r).Some? then FirstOverlap(ranges[..|ranges| - 1], r)
    else if Overlaps(ranges[|ranges| - 1], r) then Some(ranges[|ranges| - 1])
    else None
  }

  /** The newest entry with an overlapping fragment decides, and only if that fragment holds all of r. */
  function RangeOwner(entries: seq<Entry>, r: Range): Option<ImageIdentity> {
    if |entries| == 0 then None
    else
      var last := entries[|entries| - 1];
      var first := if last.active then FirstOverlap(last.ranges, r) else None;
      match first
      case None => RangeOwner(entries[..|entries| - 1], r)
      case Some(part) => if part.begin <= r.begin && part.end >= r.end then Some(last.identity) else None
  }

  ghost predicate SoleOwner(entries: seq<Entry>, r: Range, identity: ImageIdentity) {
    forall p :: r.begin <= p < r.end ==> Owner(entries, p) == Some(identity)
  }

  /** What the catalog promises of a range lookup: it answers exactly when one image owns every byte. */
  ghost predicate RangeExact(entries: seq<Entry>) {
    forall r: Range, identity :: r.InPhysicalSpace() ==>
      (RangeOwner(entries, r) == Some(identity) <==> SoleOwner(entries, r, identity))
  }

  lemma {:induction false} OwnerIsNewestCover(entries: seq<Entry>, p: int, k: nat)
    requires k < |entries| && entries[k].Covers(p)
    requires forall later :: k < later < |entries| ==> !entries[later].Covers(p)
    ensures Owner(entries, p) == Some(entries[k].identity)
  {
    if k < |entries| - 1 {
      OwnerIsNewestCover(entries[..|entries| - 1], p, k);
    }
  }

  lemma {:induction false} OwnerIsNoneWhenUncovered(entries: seq<Entry>, p: int)
    ensures Owner(entries, p).None? <==> forall k :: 0 <= k < |entries| ==> !entries[k].Covers(p)
  {
    if |entries| > 0 {
      OwnerIsNoneWhenUncovered(entries[..|entries| - 1], p);
      assert forall k :: 0 <= k < |entries| - 1 ==> entries[..|entries| - 1][k] == entries[k];
    }
  }

  lemma {:induction false} FirstOverlapMeaning(ranges: seq<Range>, r: Range)
    ensures FirstOverlap(ranges, r).None? <==> forall k :: 0 <= k < |ranges| ==> !Overlaps(ranges[k], r)
    ensures FirstOverlap(ranges, r).Some? ==>
              exists k :: 0 <= k < |ranges| && FirstOverlap(ranges, r) == Some(ranges[k]) && Overlaps(ranges[k], r) &&
                          forall j :: 0 <= j < k ==> !Overlaps(ranges[j], r)
  {
    if |ranges| > 0 {
      var init := ranges[..|ranges| - 1];
      FirstOverlapMeaning(init, r);
      assert forall k :: 0 <= k < |init| ==> init[k] == ranges[k];
      if FirstOverlap(init, r).None? && Overlaps(ranges[|ranges| - 1], r) {
        assert FirstOverlap(ranges, r) == Some(ranges[|ranges| - 1]);
      }
    }
  }

  /** The overlap that decides a range lookup: entry k's fragment j, with nothing newer overlapping. */
  ghost predicate Decides(entries: seq<Entry>, r: Range, k: int, j: int) {
    && 0 <= k < |entries| && entries[k].active
    && 0 <= j < |entries[k].ranges| && Overlaps(entries[k].ranges[j], r)
    && (forall i :: 0 <= i < j ==> !Overlaps(entries[k].ranges[i], r))
    && (forall later, i :: k < later < |entries| && entries[later].active && 0 <= i < |entries[later].ranges| ==>
          !Overlaps(entries[later].ranges[i], r))
  }

  lemma {:induction false} DeciderGivesRangeOwner(entries: seq<Entry>, r: Range, k: int, j: int)
    requires Decides(entries, r, k, j)
    ensures RangeOwner(entries, r) ==
            if entries[k].ranges[j].begin <= r.begin && entries[k].ranges[j].end >= r.end
            then Some(entries[k].identity) else None
  {
    var last := entries[|entries| - 1];
    FirstOverlapMeaning(last.ranges, r);
    if k < |entries| - 1 {
      assert Decides(entries[..|entries| - 1], r, k, j);
      DeciderGivesRangeOwner(entries[..|entries| - 1], r, k, j);
    }
  }

  lemma {:induction false} SomeOverlapHasDecider(entries: seq<Entry>, r: Range) returns (k: int, j: int)
    ensures Decides(entries, r, k, j) || (k == -1 && RangeOwner(entries, r).None? && NoOverlap(entries, r))
  {
    if |entries| == 0 {
      return -1, -1;
    }
    var last := entries[|entries| - 1];
    FirstOverlapMeaning(last.ranges, r);
    if last.active && FirstOverlap(last.ranges, r).Some? {
      k := |entries| - 1;
      j :| 0 <= j < |last.ranges| && Overlaps(last.ranges[j], r) &&
           forall i :: 0 <= i < j ==> !Overlaps(last.ranges[i], r);
    } else {
      k, j := SomeOverlapHasDecider(entries[..|entries| - 1], r);
      var init := entries[..|entries| - 1];
      assert forall i :: 0 <= i < |init| ==> init[i] == entries[i];
      if k != -1 {
        assert Decides(entries, r, k, j);
      }
    }
  }

  ghost predicate NoOverlap(entries: seq<Entry>, r: Range) {
    forall k, i :: 0 <= k < |entries| && entries[k].active && 0 <= i < |entries[k].ranges| ==>
      !Overlaps(entries[k].ranges[i], r)
  }

  /** A range lookup never names an image that does not own every byte, in any catalog at all. */
  lemma RangeOwnerIsSound(entries: seq<Entry>, r: Range, identity: ImageIdentity)
    requires r.Valid() && RangeOwner(entries, r) == Some(identity)
    ensures SoleOwner(entries, r, identity)
  {
    var k, j := SomeOverlapHasDecider(entries, r);
    DeciderGivesRangeOwner(entries, r, k, j);
    forall p | r.begin <= p < r.end
      ensures Owner(entries, p) == Some(identity)
    {
      assert entries[k].ranges[j].Contains(p);
      forall later | k < later < |entries|
        ensures !entries[later].Covers(p)
      {
      }
      OwnerIsNewestCover(entries, p, k);
    }
  }

  // ---- exactly when a range lookup is complete ---------------------------------------------------

  /** The seams of a fragment: the byte pairs across its two ends, or, for a fragment that holds no byte,
      the shortest range its overlap test still accepts. */
  ghost predicate IsSeam(part: Range, q: Range) {
    if part.Valid() then
      || (q.begin == part.end - 1 && q.end == part.end + 1)
      || (q.begin == part.begin - 1 && q.end == part.begin + 1)
    else q.begin == part.end - 1 && q.end == part.begin + 1
  }

  /** Every seam of every active fragment that one image owns outright is resolved to it. */
  ghost predicate SeamsHold(entries: seq<Entry>) {
    forall k, j, q: Range, identity ::
      0 <= k < |entries| && entries[k].active && 0 <= j < |entries[k].ranges| &&
      IsSeam(entries[k].ranges[j], q) && q.InPhysicalSpace() && SoleOwner(entries, q, identity) ==>
        RangeOwner(entries, q) == Some(identity)
  }

  lemma SeamInsideRange(entries: seq<Entry>, r: Range, k: int, j: int) returns (q: Range)
    requires r.Valid() && Decides(entries, r, k, j)
    requires !(entries[k].ranges[j].begin <= r.begin && entries[k].ranges[j].end >= r.end)
    ensures IsSeam(entries[k].ranges[j], q) && q.Valid() && r.begin <= q.begin && q.end <= r.end
    ensures RangeOwner(entries, q).None? && Decides(entries, q, k, j)
  {
    var part := entries[k].ranges[j];
    if !part.Valid() {
      q := Range(part.end - 1, part.begin + 1);
    } else if part.end < r.end {
      q := Range(part.end - 1, part.end + 1);
    } else {
      q := Range(part.begin - 1, part.begin + 1);
    }
    assert Decides(entries, q, k, j);
    DeciderGivesRangeOwner(entries, q, k, j);
  }

  /** A range one image owns outright that does not resolve to it breaks some seam inside it. */
  lemma UnresolvedRangeBreaksASeam(entries: seq<Entry>, r: Range, identity: ImageIdentity)
    requires r.InPhysicalSpace() && SoleOwner(entries, r, identity) && RangeOwner(entries, r) != Some(identity)
    ensures !SeamsHold(entries)
  {
    assert Owner(entries, r.begin) == Some(identity);
    var k, j := SomeOverlapHasDecider(entries, r);
    if RangeOwner(entries, r).Some? {
      RangeOwnerIsSound(entries, r, RangeOwner(entries, r).value);
    } else if k == -1 {
      OwnerIsNoneWhenUncovered(entries, r.begin);
    } else {
      DeciderGivesRangeOwner(entries, r, k, j);
      var q := SeamInsideRange(entries, r, k, j);
      assert SoleOwner(entries, q, identity);
    }
  }

  /** The range form agrees with the point form on every range exactly when it does on the seams, a finite
      test over the catalog's own fragments. */
  lemma RangeExactIffSeamsHold(entries: seq<Entry>)
    ensures RangeExact(entries) <==> SeamsHold(entries)
  {
    if SeamsHold(entries) {
      forall r: Range, identity | r.InPhysicalSpace()
        ensures RangeOwner(entries, r) == Some(identity) <==> SoleOwner(entries, r, identity)
      {
        if RangeOwner(entries, r) == Some(identity) {
          RangeOwnerIsSound(entries, r, identity);
        } else if SoleOwner(entries, r, identity) {
          UnresolvedRangeBreaksASeam(entries, r, identity);
        }
      }
    }
  }

  /** Fragments in ascending order, each holding a byte, with a gap between neighbours. */
  ghost predicate Separated(ranges: seq<Range>) {
    && (forall i :: 0 <= i < |ranges| ==> ranges[i].Valid())
    && (forall i, j :: 0 <= i < j < |ranges| ==> ranges[i].end < ranges[j].begin)
  }

  ghost predicate DistinctIdentities(entries: seq<Entry>) {
    forall i, j :: 0 <= i < j < |entries| ==> entries[i].identity != entries[j].identity
  }

  ghost predicate Canonical(entries: seq<Entry>) {
    && DistinctIdentities(entries)
    && (forall k :: 0 <= k < |entries| && entries[k].active ==> Separated(entries[k].ranges))
  }

  lemma {:induction false} OwnerIsAnEntry(entries: seq<Entry>, p: int) returns (k: int)
    requires Owner(entries, p).Some?
    ensures 0 <= k < |entries| && entries[k].Covers(p) && Owner(entries, p) == Some(entries[k].identity)
  {
    k := |entries| - 1;
    if !entries[k].Covers(p) {
      k := OwnerIsAnEntry(entries[..k], p);
    }
  }

  lemma GapHoldsNothing(ranges: seq<Range>, j: nat, p: int)
    requires Separated(ranges) && j < |ranges| && (p == ranges[j].end || p == ranges[j].begin - 1)
    ensures !CoversAny(ranges, p)
  {
    forall i | 0 <= i < |ranges| ensures !ranges[i].Contains(p) {
      assert i < j || i == j || j < i;
    }
  }

  /** With one image owning all of q, a canonical catalog has one fragment holding all of q. */
  lemma CanonicalFragmentHoldsAll(entries: seq<Entry>, q: Range, identity: ImageIdentity, k: int, j: int)
    requires Canonical(entries) && q.Valid() && Decides(entries, q, k, j) && SoleOwner(entries, q, identity)
    ensures RangeOwner(entries, q) == Some(identity)
  {
    var part := entries[k].ranges[j];
    DeciderGivesRangeOwner(entries, q, k, j);
    var inside: int := if part.begin <= q.begin then q.begin else part.begin;
    assert part.Contains(inside);
    OwnerIsNewestCover(entries, inside, k);
    assert Owner(entries, inside) == Some(identity);
    if !(part.begin <= q.begin && part.end >= q.end) {
      // The byte just past an end of the fragment lies in q, so the same entry owns it through another
      // fragment, which the gap between fragments rules out.
      var outside := if part.end < q.end then part.end else part.begin - 1;
      assert Owner(entries, outside) == Some(identity);
      GapHoldsNothing(entries[k].ranges, j, outside);
      var owner := OwnerIsAnEntry(entries, outside);
      assert false;
    }
  }

  /** In a canonical catalog a range resolves to an image iff every one of its bytes does. */
  lemma CanonicalIsRangeExact(entries: seq<Entry>)
    requires Canonical(entries)
    ensures RangeExact(entries)
  {
    forall r: Range, identity | r.InPhysicalSpace()
      ensures RangeOwner(entries, r) == Some(identity) <==> SoleOwner(entries, r, identity)
    {
      if RangeOwner(entries, r) == Some(identity) {
        RangeOwnerIsSound(entries, r, identity);
      } else if SoleOwner(entries, r, identity) {
        assert Owner(entries, r.begin) == Some(identity);
        var k, j := SomeOverlapHasDecider(entries, r);
        if k == -1 {
          OwnerIsNoneWhenUncovered(entries, r.begin);
        } else {
          CanonicalFragmentHoldsAll(entries, r, identity, k, j);
        }
      }
    }
  }

  // ---- the catalog's operations, on values ---------------------------------------------------------

  datatype Catalog = Catalog(entries: seq<Entry>, nextId: nat, nextGeneration: nat, revision: nat) {
    /** Every identity issued so far was issued once, and the next one is new. */
    ghost predicate Issued() {
      && 1 <= nextId && 1 <= nextGeneration
      && (forall k :: 0 <= k < |entries| ==>
            1 <= entries[k].identity.id < nextId && 1 <= entries[k].identity.generation)
      && (forall i, j :: 0 <= i < j < |entries| ==> entries[i].identity.id < entries[j].identity.id)
    }

    function NextIdentity(): ImageIdentity {
      ImageIdentity(nextId, nextGeneration)
    }
  }

  const EMPTY_CATALOG := Catalog([], 1, 1, 0)

  function Activated(c: Catalog, name: string, range: Range, content: nat): Catalog {
    Catalog(c.entries + [Entry(name, [range], content, c.NextIdentity(), true)],
            c.nextId + 1, c.nextGeneration + 1, c.revision + 1)
  }

  /** The index of the first active entry with this identity, or the number of entries. */
  function FindActive(entries: seq<Entry>, identity: ImageIdentity): (k: nat)
    ensures k <= |entries|
    ensures k < |entries| ==> entries[k].active && entries[k].identity == identity
    ensures forall i :: 0 <= i < k ==> !(entries[i].active && entries[i].identity == identity)
  {
    if |entries| == 0 then 0
    else
      var k := FindActive(entries[..|entries| - 1], identity);
      if k < |entries| - 1 then k
      else if entries[|entries| - 1].active && entries[|entries| - 1].identity == identity then |entries| - 1
      else |entries|
  }

  /** What is left of one fragment after the bytes of r are taken out. */
  function Split(part: Range, r: Range): seq<Range> {
    if part.end <= r.begin || part.begin >= r.end then [part]
    else
      (if part.begin < r.begin then [Range(part.begin, r.begin)] else []) +
      (if r.end < part.end then [Range(r.end, part.end)] else [])
  }

  function Surviving(ranges: seq<Range>, r: Range): seq<Range> {
    if |ranges| == 0 then []
    else Surviving(ranges[..|ranges| - 1], r) + Split(ranges[|ranges| - 1], r)
  }

  function Subtracted(c: Catalog, identity: ImageIdentity, r: Range): Catalog {
    var k := FindActive(c.entries, identity);
    if !r.InPhysicalSpace() || k == |c.entries| then c
    else
      var left := Surviving(c.entries[k].ranges, r);
      c.(entries := c.entries[k := c.entries[k].(ranges := left, active := left != [])], revision := c.revision + 1)
  }

  function Deactivated(c: Catalog, identity: ImageIdentity): Catalog {
    var k := FindActive(c.entries, identity);
    if k == |c.entries| then c
    else c.(entries := c.entries[k := c.entries[k].(active := false)], revision := c.revision + 1)
  }

  function ActiveResidencies(entries: seq<Entry>): seq<ImageDescription> {
    if |entries| == 0 then []
    else
      ActiveResidencies(entries[..|entries| - 1]) +
      if entries[|entries| - 1].active then [entries[|entries| - 1].Description()] else []
  }

  datatype AdoptScan = AdoptScan(entries: seq<Entry>, kept: nat, matching: bool)

  /** One entry of the adoption scan: kept while the live residencies match, deactivated after. */
  function AdoptStep(scan: AdoptScan, entry: Entry, residencies: seq<ImageDescription>): AdoptScan {
    if !entry.active then scan.(entries := scan.entries + [entry])
    else if scan.matching && scan.kept < |residencies| && entry.Description() == residencies[scan.kept] then
      AdoptScan(scan.entries + [entry], scan.kept + 1, true)
    else AdoptScan(scan.entries + [entry.(active := false)], scan.kept, false)
  }

  function ScanForAdoption(entries: seq<Entry>, residencies: seq<ImageDescription>): (scan: AdoptScan)
    ensures scan.kept <= |residencies| && |scan.entries| == |entries|
  {
    if |entries| == 0 then AdoptScan([], 0, true)
    else AdoptStep(ScanForAdoption(entries[..|entries| - 1], residencies), entries[|entries| - 1], residencies)
  }

  /** Appends each residency as a fresh activation. */
  function Append(c: Catalog, residencies: seq<ImageDescription>): Catalog {
    if |residencies| == 0 then c
    else
      var before := Append(c, residencies[..|residencies| - 1]);
      var r := residencies[|residencies| - 1];
      before.(entries := before.entries + [Entry(r.name, r.ranges, r.content, before.NextIdentity(), true)],
              nextId := before.nextId + 1, nextGeneration := before.nextGeneration + 1)
  }

  function Adopted(c: Catalog, residencies: seq<ImageDescription>): Catalog {
    var scan := ScanForAdoption(c.entries, residencies);
    var grown := Append(c.(entries := scan.entries), residencies[scan.kept..]);
    grown.(revision := grown.revision + 1)
  }

  // ---- activation ----------------------------------------------------------------------------------

  lemma AppendOwner(entries: seq<Entry>, entry: Entry, p: int)
    ensures Owner(entries + [entry], p) == if entry.Covers(p) then Some(entry.identity) else Owner(entries, p)
  {
    assert (entries + [entry])[..|entries|] == entries;
  }

  lemma AppendRangeOwner(entries: seq<Entry>, entry: Entry, r: Range)
    requires entry.active && |entry.ranges| == 1
    ensures RangeOwner(entries + [entry], r) ==
            if !Overlaps(entry.ranges[0], r) then RangeOwner(entries, r)
            else if entry.ranges[0].begin <= r.begin && entry.ranges[0].end >= r.end then Some(entry.identity)
            else None
  {
    assert (entries + [entry])[..|entries|] == entries;
    assert entry.ranges[..0] == [];
    assert FirstOverlap(entry.ranges, r) == if Overlaps(entry.ranges[0], r) then Some(entry.ranges[0]) else None;
  }

  /** `activate` checks nothing of its range. On a canonical catalog the range promise survives exactly when the
      range holds a byte, or no range the malformed fragment would spoil had a single owner. */
  lemma ActivateKeepsRangeExactIff(c: Catalog, name: string, range: Range, content: nat)
    requires c.Issued() && Canonical(c.entries)
    ensures RangeExact(Activated(c, name, range, content).entries) <==>
            (range.Valid() || range.end == 0 || range.begin >= PHYSICAL_SPACE ||
             RangeOwner(c.entries, Range(range.end - 1, range.begin + 1)).None?)
  {
    var entry := Entry(name, [range], content, c.NextIdentity(), true);
    var grown := c.entries + [entry];
    assert Activated(c, name, range, content).entries == grown;
    if range.Valid() {
      assert Canonical(grown);
      CanonicalIsRangeExact(grown);
    } else {
      CanonicalIsRangeExact(c.entries);
      forall p ensures Owner(grown, p) == Owner(c.entries, p) { AppendOwner(c.entries, entry, p); }
      assert forall r: Range, identity :: SoleOwner(grown, r, identity) <==> SoleOwner(c.entries, r, identity);
      if range.end > 0 && range.begin < PHYSICAL_SPACE {
        var seam := Range(range.end - 1, range.begin + 1);
        AppendRangeOwner(c.entries, entry, seam);
        if RangeOwner(c.entries, seam).Some? {
          assert SoleOwner(grown, seam, RangeOwner(c.entries, seam).value);
        } else {
          MalformedFragmentSpares(c.entries, entry);
        }
      } else {
        forall r: Range | r.InPhysicalSpace() ensures RangeOwner(grown, r) == RangeOwner(c.entries, r) {
          AppendRangeOwner(c.entries, entry, r);
        }
      }
    }
  }

  lemma MalformedFragmentSpares(entries: seq<Entry>, entry: Entry)
    requires Canonical(entries) && RangeExact(entries)
    requires entry.active && |entry.ranges| == 1 && !entry.ranges[0].Valid()
    requires 0 < entry.ranges[0].end && entry.ranges[0].begin < PHYSICAL_SPACE
    requires RangeOwner(entries, Range(entry.ranges[0].end - 1, entry.ranges[0].begin + 1)).None?
    ensures RangeExact(entries + [entry])
  {
    var part := entry.ranges[0];
    var seam := Range(part.end - 1, part.begin + 1);
    forall r: Range, identity | r.InPhysicalSpace()
      ensures RangeOwner(entries + [entry], r) == Some(identity) <==> SoleOwner(entries + [entry], r, identity)
    {
      AppendRangeOwner(entries, entry, r);
      forall p ensures Owner(entries + [entry], p) == Owner(entries, p) { AppendOwner(entries, entry, p); }
      assert SoleOwner(entries + [entry], r, identity) <==> SoleOwner(entries, r, identity);
      if Overlaps(part, r) && SoleOwner(entries, r, identity) {
        assert SoleOwner(entries, seam, identity);
      }
    }
  }

  /** The failing family has a member: an empty range activated inside a loaded image. */
  lemma EmptyActivationSpoilsRangeLookup()
    ensures exists c: Catalog :: c.Issued() && Canonical(c.entries) &&
                                 !RangeExact(Activated(c, "empty", Range(4, 4), 0).entries)
  {
    var c := Activated(EMPTY_CATALOG, "exe", Range(0, 8), 1);
    assert c.entries == [Entry("exe", [Range(0, 8)], 1, ImageIdentity(1, 1), true)];
    AppendRangeOwner([], c.entries[0], Range(3, 5));
    assert [] + [c.entries[0]] == c.entries;
    ActivateKeepsRangeExactIff(c, "empty", Range(4, 4), 0);
  }

  // ---- subtraction ---------------------------------------------------------------------------------

  lemma {:induction false} SurvivingCoverage(ranges: seq<Range>, r: Range, p: int)
    requires r.Valid()
    ensures CoversAny(Surviving(ranges, r), p) <==> CoversAny(ranges, p) && !r.Contains(p)
  {
    if |ranges| > 0 {
      var init, last := ranges[..|ranges| - 1], ranges[|ranges| - 1];
      SurvivingCoverage(init, r, p);
      ConcatCoverage(init, [last], p);
      assert init + [last] == ranges;
      ConcatCoverage(Surviving(init, r), Split(last, r), p);
      assert CoversAny([last], p) <==> last.Contains(p);
      SplitCoverage(last, r, p);
    }
  }

  lemma ConcatCoverage(a: seq<Range>, b: seq<Range>, p: int)
    ensures CoversAny(a + b, p) <==> CoversAny(a, p) || CoversAny(b, p)
  {
    forall k | 0 <= k < |b| && b[k].Contains(p) ensures CoversAny(a + b, p) { assert (a + b)[|a| + k] == b[k]; }
    forall k | 0 <= k < |a| && a[k].Contains(p) ensures CoversAny(a + b, p) { assert (a + b)[k] == a[k]; }
  }

  lemma SplitCoverage(part: Range, r: Range, p: int)
    requires r.Valid()
    ensures CoversAny(Split(part, r), p) <==> part.Contains(p) && !r.Contains(p)
  {
    var s := Split(part, r);
    assert forall k :: 0 <= k < |s| ==> s[k] == s[0] || s[k] == s[|s| - 1];
    if part.Contains(p) && !r.Contains(p) {
      assert s[0].Contains(p) || s[|s| - 1].Contains(p);
    }
  }

  lemma SeparatedConcat(a: seq<Range>, b: seq<Range>, cut: int)
    requires Separated(a) && Separated(b)
    requires forall i :: 0 <= i < |a| ==> a[i].end < cut
    requires forall i :: 0 <= i < |b| ==> cut <= b[i].begin
    ensures Separated(a + b)
  {
    forall i, j | 0 <= i < j < |a + b| ensures (a + b)[i].end < (a + b)[j].begin {
      if j < |a| {
        assert a[i].end < a[j].begin;
      } else if i >= |a| {
        assert b[i - |a|].end < b[j - |a|].begin;
      }
    }
  }

  lemma SplitSeparated(part: Range, r: Range)
    requires part.Valid() && r.Valid()
    ensures Separated(Split(part, r))
    ensures forall i :: 0 <= i < |Split(part, r)| ==>
              part.begin <= Split(part, r)[i].begin && Split(part, r)[i].end <= part.end
  {
  }

  lemma {:induction false} SurvivingSeparated(ranges: seq<Range>, r: Range)
    requires Separated(ranges) && r.Valid()
    ensures Separated(Surviving(ranges, r))
    ensures |ranges| > 0 ==>
              forall i :: 0 <= i < |Surviving(ranges, r)| ==> Surviving(ranges, r)[i].end <= ranges[|ranges| - 1].end
  {
    if |ranges| > 0 {
      var init, last := ranges[..|ranges| - 1], ranges[|ranges| - 1];
      var kept, split := Surviving(init, r), Split(last, r);
      assert Separated(init);
      SurvivingSeparated(init, r);
      SplitSeparated(last, r);
      assert |init| > 0 ==> init[|init| - 1].end < last.begin;
      assert |init| == 0 ==> kept == [];
      assert forall i :: 0 <= i < |kept| ==> kept[i].end < last.begin;
      SeparatedConcat(kept, split, last.begin);
      assert Surviving(ranges, r) == kept + split;
    }
  }

  lemma {:induction false} ReplacedEntryOwner(entries: seq<Entry>, k: nat, entry: Entry, p: int)
    requires k < |entries| && entry.identity == entries[k].identity
    requires entry.Covers(p) <==> entries[k].Covers(p)
    ensures Owner(entries[k := entry], p) == Owner(entries, p)
  {
    var last := |entries| - 1;
    if k < last {
      assert entries[k := entry][..last] == entries[..last][k := entry];
      ReplacedEntryOwner(entries[..last], k, entry, p);
    } else {
      assert entries[k := entry][..last] == entries[..last];
    }
  }

  /** Subtraction takes exactly r's bytes from the one image's coverage, moves no other address's owner and
      touches no other entry; the image goes inactive exactly when no byte of it is left. */
  lemma SubtractTakesExactlyTheBytes(c: Catalog, identity: ImageIdentity, r: Range, k: nat)
    requires r.InPhysicalSpace() && k == FindActive(c.entries, identity) && k < |c.entries|
    ensures var after := Subtracted(c, identity, r).entries;
            && |after| == |c.entries|
            && (forall p :: after[k].Covers(p) <==> c.entries[k].Covers(p) && !r.Contains(p))
            && (forall p :: !r.Contains(p) ==> Owner(after, p) == Owner(c.entries, p))
            && (forall i :: 0 <= i < |after| && i != k ==> after[i] == c.entries[i])
            && after[k].identity == c.entries[k].identity
            && (Canonical(c.entries) ==> (!after[k].active <==> forall p :: !after[k].Covers(p)))
  {
    var after := Subtracted(c, identity, r).entries;
    forall p
      ensures after[k].Covers(p) <==> c.entries[k].Covers(p) && !r.Contains(p)
      ensures !r.Contains(p) ==> Owner(after, p) == Owner(c.entries, p)
    {
      SurvivingCoverage(c.entries[k].ranges, r, p);
      if !r.Contains(p) {
        ReplacedEntryOwner(c.entries, k, after[k], p);
      }
    }
    if Canonical(c.entries) && after[k].active {
      SurvivingSeparated(c.entries[k].ranges, r);
      assert after[k].ranges[0].Contains(after[k].ranges[0].begin);
      assert after[k].Covers(after[k].ranges[0].begin);
    }
  }

  // ---- unload --------------------------------------------------------------------------------------

  /** Any number of subtractions from one image. */
  function SubtractAll(c: Catalog, identity: ImageIdentity, cuts: seq<Range>): Catalog {
    if |cuts| == 0 then c
    else Subtracted(SubtractAll(c, identity, cuts[..|cuts| - 1]), identity, cuts[|cuts| - 1])
  }

  /** Activating an image, cutting any ranges from it and unloading it leaves every address's owner as it was:
      whatever the image covered is revealed again. */
  lemma UnloadRevealsWhatWasBelow(c: Catalog, name: string, range: Range, content: nat, cuts: seq<Range>, p: int)
    requires c.Issued()
    ensures Owner(Deactivated(SubtractAll(Activated(c, name, range, content), c.NextIdentity(), cuts),
                             c.NextIdentity()).entries, p) == Owner(c.entries, p)
  {
    var cut := SubtractAll(Activated(c, name, range, content), c.NextIdentity(), cuts);
    CutsTouchOnlyTheNewest(c, name, range, content, cuts);
    UnloadingTheNewest(cut, c.NextIdentity(), c.entries);
    var end := Deactivated(cut, c.NextIdentity()).entries;
    assert end[..|end| - 1] == c.entries;
  }

  lemma UnloadingTheNewest(c: Catalog, identity: ImageIdentity, below: seq<Entry>)
    requires |c.entries| == |below| + 1 && c.entries[..|below|] == below
    requires c.entries[|below|].identity == identity
    requires forall k :: 0 <= k < |below| ==> below[k].identity != identity
    ensures var end := Deactivated(c, identity).entries;
            |end| == |below| + 1 && end[..|below|] == below && !end[|below|].active
  {
    forall k | 0 <= k < |below| ensures c.entries[k].identity != identity {
      assert c.entries[k] == c.entries[..|below|][k];
    }
    NewestIsFoundLast(c, identity, |below|);
  }

  lemma NewestIsFoundLast(c: Catalog, identity: ImageIdentity, last: nat)
    requires last + 1 == |c.entries| && c.entries[last].identity == identity
    requires forall k :: 0 <= k < last ==> c.entries[k].identity != identity
    ensures FindActive(c.entries, identity) == if c.entries[last].active then last else last + 1
  {
  }

  lemma {:induction false} CutsTouchOnlyTheNewest(c: Catalog, name: string, range: Range, content: nat,
                                                  cuts: seq<Range>)
    requires c.Issued()
    ensures var cut := SubtractAll(Activated(c, name, range, content), c.NextIdentity(), cuts).entries;
            && |cut| == |c.entries| + 1
            && cut[..|c.entries|] == c.entries
            && cut[|c.entries|].identity == c.NextIdentity()
  {
    var last := |c.entries|;
    if |cuts| > 0 {
      CutsTouchOnlyTheNewest(c, name, range, content, cuts[..|cuts| - 1]);
      var before := SubtractAll(Activated(c, name, range, content), c.NextIdentity(), cuts[..|cuts| - 1]);
      assert forall k :: 0 <= k < last ==> before.entries[k] == before.entries[..last][k] == c.entries[k];
      NewestIsFoundLast(before, c.NextIdentity(), last);
    }
  }

  // ---- adoption ------------------------------------------------------------------------------------

  /** k is the length of the longest common prefix of a and b. */
  ghost predicate LongestCommonPrefix<T>(a: seq<T>, b: seq<T>, k: nat) {
    k <= |a| && k <= |b| && a[..k] == b[..k] && (k == |a| || k == |b| || a[k] != b[k])
  }

  /** The position of entry i among the active residencies. */
  function ActiveBefore(entries: seq<Entry>, i: nat): nat
    requires i <= |entries|
  {
    |ActiveResidencies(entries[..i])|
  }

  /** What adoption makes of the live entries when it keeps the first `kept` active ones. */
  ghost predicate KeptPrefix(before: seq<Entry>, after: seq<Entry>, kept: nat) {
    && |before| <= |after|
    && forall i :: 0 <= i < |before| ==>
         after[i] == if before[i].active && ActiveBefore(before, i) >= kept then before[i].(active := false)
                     else before[i]
  }

  lemma ExtendCommonPrefix<T>(a: seq<T>, x: T, b: seq<T>, k: nat)
    requires LongestCommonPrefix(a, b, k)
    ensures if k == |a| && k < |b| && x == b[k] then LongestCommonPrefix(a + [x], b, k + 1)
            else LongestCommonPrefix(a + [x], b, k)
  {
    assert (a + [x])[..k] == a[..k];
    if k == |a| && k < |b| && x == b[k] {
      assert (a + [x])[..k + 1] == a[..k] + [x] && b[..k + 1] == b[..k] + [x];
    }
  }

  /** The scan keeps the longest prefix of the live residencies that the adopted ones match. */
  lemma {:induction false} ScanKeepsLongestPrefix(entries: seq<Entry>, residencies: seq<ImageDescription>)
    ensures var scan := ScanForAdoption(entries, residencies);
            && LongestCommonPrefix(ActiveResidencies(entries), residencies, scan.kept)
            && (scan.matching <==> scan.kept == |ActiveResidencies(entries)|)
  {
    if |entries| > 0 {
      var init, last := entries[..|entries| - 1], entries[|entries| - 1];
      ScanKeepsLongestPrefix(init, residencies);
      if last.active {
        ExtendCommonPrefix(ActiveResidencies(init), last.Description(), residencies,
                           ScanForAdoption(init, residencies).kept);
      }
    }
  }

  lemma {:induction false} ScanLeavesThePrefixActive(entries: seq<Entry>, residencies: seq<ImageDescription>)
    ensures var scan := ScanForAdoption(entries, residencies);
            ActiveResidencies(scan.entries) == residencies[..scan.kept]
  {
    if |entries| > 0 {
      var init := entries[..|entries| - 1];
      ScanLeavesThePrefixActive(init, residencies);
      var before, scan := ScanForAdoption(init, residencies), ScanForAdoption(entries, residencies);
      assert scan.entries[..|init|] == before.entries;
      if scan.kept != before.kept {
        assert residencies[..before.kept + 1] == residencies[..before.kept] + [residencies[before.kept]];
      }
    }
  }

  lemma {:induction false} ScanTouchesOnlyTheRest(entries: seq<Entry>, residencies: seq<ImageDescription>)
    ensures KeptPrefix(entries, ScanForAdoption(entries, residencies).entries,
                       ScanForAdoption(entries, residencies).kept)
  {
    if |entries| > 0 {
      var init := entries[..|entries| - 1];
      ScanTouchesOnlyTheRest(init, residencies);
      ScanKeepsLongestPrefix(init, residencies);
      var before, scan := ScanForAdoption(init, residencies), ScanForAdoption(entries, residencies);
      forall i | 0 <= i < |init|
        ensures scan.entries[i] == if entries[i].active && ActiveBefore(entries, i) >= scan.kept
                                   then entries[i].(active := false) else entries[i]
      {
        assert scan.entries[i] == before.entries[i] && init[..i] == entries[..i] && init[i] == entries[i];
        ActiveBeforeGrows(init, i);
      }
      assert entries[..|init|] == init;
    }
  }

  lemma {:induction false} ActiveBeforeGrows(entries: seq<Entry>, i: nat)
    requires i < |entries|
    ensures ActiveBefore(entries, i) + (if entries[i].active then 1 else 0) <= |ActiveResidencies(entries)|
    decreases |entries|
  {
    if i == |entries| - 1 {
    } else {
      var init := entries[..|entries| - 1];
      assert init[..i] == entries[..i];
      ActiveBeforeGrows(init, i);
    }
  }

  lemma {:induction false} AppendGrows(c: Catalog, residencies: seq<ImageDescription>)
    ensures var after := Append(c, residencies);
            && |after.entries| == |c.entries| + |residencies|
            && after.entries[..|c.entries|] == c.entries
            && after.nextId == c.nextId + |residencies|
            && after.nextGeneration == c.nextGeneration + |residencies|
            && (forall i :: |c.entries| <= i < |after.entries| ==>
                  after.entries[i] == Appended(c, residencies, i - |c.entries|))
  {
    if |residencies| > 0 {
      var init := residencies[..|residencies| - 1];
      AppendGrows(c, init);
      var before, after := Append(c, init), Append(c, residencies);
      assert after.entries == before.entries + [Appended(c, residencies, |init|)];
      assert forall k :: 0 <= k < |init| ==> init[k] == residencies[k];
    }
  }

  /** The entry the k-th appended residency becomes. */
  function Appended(c: Catalog, residencies: seq<ImageDescription>, k: nat): Entry
    requires k < |residencies|
  {
    Entry(residencies[k].name, residencies[k].ranges, residencies[k].content,
          ImageIdentity(c.nextId + k, c.nextGeneration + k), true)
  }

  lemma {:induction false} AppendedAreActive(c: Catalog, residencies: seq<ImageDescription>)
    ensures ActiveResidencies(Append(c, residencies).entries) == ActiveResidencies(c.entries) + residencies
  {
    if |residencies| > 0 {
      var init := residencies[..|residencies| - 1];
      AppendedAreActive(c, init);
      var before, after := Append(c, init), Append(c, residencies);
      assert after.entries[..|before.entries|] == before.entries;
    }
  }

  /** After adopting rs the active residencies are rs in order: the longest matching live prefix keeps its
      entries and identities, every other live entry is only deactivated, and each new entry's identity was
      never issued before. */
  lemma AdoptMakesExactlyTheResidencies(c: Catalog, residencies: seq<ImageDescription>, kept: nat)
    requires c.Issued() && LongestCommonPrefix(ActiveResidencies(c.entries), residencies, kept)
    ensures var after := Adopted(c, residencies);
            && ActiveResidencies(after.entries) == residencies
            && KeptPrefix(c.entries, after.entries, kept)
            && |after.entries| == |c.entries| + |residencies| - kept
            && (forall i :: |c.entries| <= i < |after.entries| ==>
                  && c.nextId <= after.entries[i].identity.id
                  && after.entries[i].active
                  && after.entries[i].Description() == residencies[kept + i - |c.entries|])
  {
    var scan := ScanForAdoption(c.entries, residencies);
    ScanKeepsLongestPrefix(c.entries, residencies);
    LongestPrefixIsUnique(ActiveResidencies(c.entries), residencies, kept, scan.kept);
    AdoptedResidencies(c, residencies);
    AdoptKeepsPrefix(c, residencies);
    AppendGrows(c.(entries := scan.entries), residencies[kept..]);
  }

  lemma AdoptedResidencies(c: Catalog, residencies: seq<ImageDescription>)
    ensures ActiveResidencies(Adopted(c, residencies).entries) == residencies
  {
    var scan := ScanForAdoption(c.entries, residencies);
    ScanLeavesThePrefixActive(c.entries, residencies);
    AppendedAreActive(c.(entries := scan.entries), residencies[scan.kept..]);
    assert residencies[..scan.kept] + residencies[scan.kept..] == residencies;
  }

  lemma AdoptKeepsPrefix(c: Catalog, residencies: seq<ImageDescription>)
    ensures KeptPrefix(c.entries, Adopted(c, residencies).entries, ScanForAdoption(c.entries, residencies).kept)
  {
    var scan := ScanForAdoption(c.entries, residencies);
    ScanTouchesOnlyTheRest(c.entries, residencies);
    AppendGrows(c.(entries := scan.entries), residencies[scan.kept..]);
    var after := Adopted(c, residencies).entries;
    forall i | 0 <= i < |c.entries| ensures after[i] == scan.entries[i] {
      assert after[i] == after[..|c.entries|][i];
    }
  }

  lemma AdoptKeepsIssued(c: Catalog, residencies: seq<ImageDescription>)
    requires c.Issued()
    ensures Adopted(c, residencies).Issued()
  {
    var scan := ScanForAdoption(c.entries, residencies);
    ScanTouchesOnlyTheRest(c.entries, residencies);
    var scanned := c.(entries := scan.entries);
    AppendGrows(scanned, residencies[scan.kept..]);
    var after := Adopted(c, residencies).entries;
    forall i | 0 <= i < |c.entries| ensures after[i].identity == c.entries[i].identity {
      assert after[i] == after[..|c.entries|][i] == scan.entries[i];
    }
  }

  lemma LongestPrefixIsUnique<T>(a: seq<T>, b: seq<T>, j: nat, k: nat)
    requires LongestCommonPrefix(a, b, j) && LongestCommonPrefix(a, b, k)
    ensures j == k
  {
    assert forall i :: 0 <= i < j ==> a[..j][i] == b[..j][i];
    assert forall i :: 0 <= i < k ==> a[..k][i] == b[..k][i];
  }

  /** Saving the residencies and adopting them back leaves the catalog's entries, and so every owner, alone. */
  lemma AdoptingOwnResidenciesChangesNothing(c: Catalog)
    ensures Adopted(c, ActiveResidencies(c.entries)).entries == c.entries
  {
    var live := ActiveResidencies(c.entries);
    var scan := ScanForAdoption(c.entries, live);
    ScanKeepsLongestPrefix(c.entries, live);
    ScanTouchesOnlyTheRest(c.entries, live);
    LongestPrefixIsUnique(live, live, |live|, scan.kept);
    forall i | 0 <= i < |c.entries| ensures scan.entries[i] == c.entries[i] {
      ActiveBeforeGrows(c.entries, i);
    }
    assert scan.entries == c.entries;
    assert live[|live|..] == [];
  }

  // ---- every reachable catalog ---------------------------------------------------------------------

  datatype CatalogOp =
    | ActivateOp(name: string, range: Range, content: nat)
    | SubtractOp(identity: ImageIdentity, range: Range)
    | DeactivateOp(identity: ImageIdentity)
    | AdoptOp(residencies: seq<ImageDescription>)

  function Apply(c: Catalog, op: CatalogOp): Catalog {
    match op
    case ActivateOp(name, range, content) => Activated(c, name, range, content)
    case SubtractOp(identity, range) => Subtracted(c, identity, range)
    case DeactivateOp(identity) => Deactivated(c, identity)
    case AdoptOp(residencies) => Adopted(c, residencies)
  }

  function ApplyAll(c: Catalog, ops: seq<CatalogOp>): Catalog {
    if |ops| == 0 then c else Apply(ApplyAll(c, ops[..|ops| - 1]), ops[|ops| - 1])
  }

  /** An activation of at least one byte, or an adoption of residencies a canonical catalog could have saved. */
  ghost predicate WellStated(op: CatalogOp) {
    && (op.ActivateOp? ==> op.range.Valid())
    && (op.AdoptOp? ==> forall i :: 0 <= i < |op.residencies| ==> Separated(op.residencies[i].ranges))
  }

  lemma IssuedIsDistinct(c: Catalog)
    requires c.Issued()
    ensures DistinctIdentities(c.entries)
  {
    forall i, j | 0 <= i < j < |c.entries| ensures c.entries[i].identity != c.entries[j].identity {
      assert c.entries[i].identity.id < c.entries[j].identity.id;
    }
  }

  lemma ApplyKeepsIssued(c: Catalog, op: CatalogOp)
    requires c.Issued()
    ensures Apply(c, op).Issued()
  {
    if op.AdoptOp? {
      AdoptKeepsIssued(c, op.residencies);
    }
  }

  lemma AdoptKeepsCanonical(c: Catalog, residencies: seq<ImageDescription>)
    requires c.Issued() && Canonical(c.entries) && WellStated(AdoptOp(residencies))
    ensures forall k :: 0 <= k < |Adopted(c, residencies).entries| && Adopted(c, residencies).entries[k].active ==>
              Separated(Adopted(c, residencies).entries[k].ranges)
  {
    var kept := ScanForAdoption(c.entries, residencies).kept;
    ScanKeepsLongestPrefix(c.entries, residencies);
    AdoptMakesExactlyTheResidencies(c, residencies, kept);
    var after := Adopted(c, residencies).entries;
    forall k | 0 <= k < |after| && after[k].active ensures Separated(after[k].ranges) {
      if k >= |c.entries| {
        assert after[k].Description() == residencies[kept + k - |c.entries|];
      } else {
        assert after[k] == c.entries[k];
      }
    }
  }

  lemma SubtractKeepsSeparated(c: Catalog, identity: ImageIdentity, range: Range)
    requires Canonical(c.entries)
    ensures var after := Subtracted(c, identity, range).entries;
            forall k :: 0 <= k < |after| && after[k].active ==> Separated(after[k].ranges)
  {
    var k := FindActive(c.entries, identity);
    if k < |c.entries| && range.InPhysicalSpace() {
      SurvivingSeparated(c.entries[k].ranges, range);
    }
  }

  lemma ApplyKeepsCanonical(c: Catalog, op: CatalogOp)
    requires c.Issued() && Canonical(c.entries) && WellStated(op)
    ensures Canonical(Apply(c, op).entries)
  {
    ApplyKeepsIssued(c, op);
    IssuedIsDistinct(Apply(c, op));
    match op
    case ActivateOp(_, _, _) =>
    case DeactivateOp(_) =>
    case SubtractOp(identity, range) => SubtractKeepsSeparated(c, identity, range);
    case AdoptOp(residencies) => AdoptKeepsCanonical(c, residencies);
  }

  /** In every catalog reachable by well-stated operations, in any order and number, identities are issued once
      and a range lookup names an image iff that image owns every byte. */
  lemma {:induction false} EveryReachableCatalogIsRangeExact(ops: seq<CatalogOp>)
    requires forall i :: 0 <= i < |ops| ==> WellStated(ops[i])
    ensures var c := ApplyAll(EMPTY_CATALOG, ops);
            c.Issued() && Canonical(c.entries) && RangeExact(c.entries)
  {
    if |ops| > 0 {
      var before := ApplyAll(EMPTY_CATALOG, ops[..|ops| - 1]);
      EveryReachableCatalogIsRangeExact(ops[..|ops| - 1]);
      ApplyKeepsIssued(before, ops[|ops| - 1]);
      ApplyKeepsCanonical(before, ops[|ops| - 1]);
    }
    CanonicalIsRangeExact(ApplyAll(EMPTY_CATALOG, ops).entries);
  }

  /** Adopting a residency whose fragments touch breaks the range promise: every byte of [2,6) has one owner and
      the range resolves to none. */
  lemma TouchingFragmentsSpoilRangeLookup()
    ensures !RangeExact(Adopted(EMPTY_CATALOG, [ImageDescription("exe", 1, [Range(0, 4), Range(4, 8)])]).entries)
  {
    var residency := ImageDescription("exe", 1, [Range(0, 4), Range(4, 8)]);
    var c := Adopted(EMPTY_CATALOG, [residency]);
    var entry := Entry("exe", residency.ranges, 1, ImageIdentity(1, 1), true);
    assert [residency][0..] == [residency] && [residency][..0] == [];
    assert Append(EMPTY_CATALOG, []) == EMPTY_CATALOG;
    assert Append(EMPTY_CATALOG, [residency]).entries == [entry];
    assert c.entries == [entry];
    var r := Range(2, 6);
    assert entry.ranges[..1] == [Range(0, 4)];
    assert Decides(c.entries, r, 0, 0);
    DeciderGivesRangeOwner(c.entries, r, 0, 0);
    forall p | 2 <= p < 6 ensures Owner(c.entries, p) == Some(entry.identity) {
      assert entry.ranges[if p < 4 then 0 else 1].Contains(p);
    }
    assert SoleOwner(c.entries, r, entry.identity);
  }

  // ---- the catalog object --------------------------------------------------------------------------

  /** A counter from 1 up. Whatever a verdict depends on moves it when it changes, so an older stamp proves nothing. */
  class DispatchEpoch {
    var value: nat

    constructor ()
      ensures value == 1
    {
      value := 1;
    }

    method Advance()
      modifies this
      ensures value == old(value) + 1
    {
      value := value + 1;
    }
  }

  class ImageCatalog {
    const epoch: DispatchEpoch
    var entries: seq<Entry>
    var nextId: nat
    var nextGeneration: nat
    var revision: nat

    ghost function Model(): Catalog
      reads this
    {
      Catalog(entries, nextId, nextGeneration, revision)
    }

    constructor (epoch: DispatchEpoch)
      ensures this.epoch == epoch && Model() == EMPTY_CATALOG
    {
      this.epoch := epoch;
      entries, nextId, nextGeneration, revision := [], 1, 1, 0;
    }

    method Changed()
      modifies this`revision, epoch
      ensures revision == old(revision) + 1 && epoch.value == old(epoch.value) + 1
    {
      revision := revision + 1;
      epoch.Advance();
    }

    method Activate(name: string, range: Range, content: nat) returns (identity: ImageIdentity)
      modifies this, epoch
      ensures Model() == Apply(old(Model()), ActivateOp(name, range, content))
      ensures identity == old(Model()).NextIdentity() && epoch.value == old(epoch.value) + 1
    {
      identity := ImageIdentity(nextId, nextGeneration);
      nextId, nextGeneration := nextId + 1, nextGeneration + 1;
      Changed();
      entries := entries + [Entry(name, [range], content, identity, true)];
    }

    method Find(identity: ImageIdentity) returns (k: nat)
      ensures k == FindActive(entries, identity)
    {
      k := 0;
      while k < |entries| && !(entries[k].active && entries[k].identity == identity)
        invariant k <= |entries|
        invariant forall i :: 0 <= i < k ==> !(entries[i].active && entries[i].identity == identity)
      {
        k := k + 1;
      }
    }

    static method Survivors(parts: seq<Range>, r: Range) returns (surviving: seq<Range>)
      ensures surviving == Surviving(parts, r)
    {
      surviving := [];
      var i := 0;
      while i < |parts|
        invariant 0 <= i <= |parts|
        invariant surviving == Surviving(parts[..i], r)
      {
        var part := parts[i];
        assert parts[..i + 1][..i] == parts[..i];
        i := i + 1;
        if part.end <= r.begin || part.begin >= r.end {
          surviving := surviving + [part];
          continue;
        }
        ghost var before := surviving;
        if part.begin < r.begin {
          surviving := surviving + [Range(part.begin, r.begin)];
        }
        if r.end < part.end {
          surviving := surviving + [Range(r.end, part.end)];
        }
        assert surviving == before + Split(part, r);
      }
      assert parts[..|parts|] == parts;
    }

    /** None is the thrown invalid_argument; otherwise the count of surviving fragments. */
    method SubtractRange(identity: ImageIdentity, r: Range) returns (fragments: Option<nat>)
      modifies this, epoch
      ensures fragments.None? <==> !r.InPhysicalSpace()
      ensures Model() == Apply(old(Model()), SubtractOp(identity, r))
      ensures var k := FindActive(old(entries), identity);
              if r.InPhysicalSpace() && k < old(|entries|)
              then fragments == Some(|entries[k].ranges|) && epoch.value == old(epoch.value) + 1
              else epoch.value == old(epoch.value) && (fragments.Some? ==> fragments.value == 0)
    {
      if !r.Valid() || r.end > PHYSICAL_SPACE {
        return None;
      }
      var k := Find(identity);
      if k == |entries| {
        return Some(0);
      }
      var surviving := Survivors(entries[k].ranges, r);
      entries := entries[k := entries[k].(ranges := surviving, active := |surviving| != 0)];
      Changed();
      return Some(|entries[k].ranges|);
    }

    method Deactivate(identity: ImageIdentity) returns (done: bool)
      modifies this, epoch
      ensures Model() == Apply(old(Model()), DeactivateOp(identity))
      ensures done <==> FindActive(old(entries), identity) < old(|entries|)
      ensures epoch.value == old(epoch.value) + if done then 1 else 0
    {
      var k := Find(identity);
      if k == |entries| {
        return false;
      }
      entries := entries[k := entries[k].(active := false)];
      Changed();
      return true;
    }

    /** The owner of one guest address, by its physical image. */
    method Resolve(guestAddress: Word) returns (owner: Option<ImageIdentity>)
      ensures owner == Owner(entries, Physical(guestAddress))
    {
      var p := Physical(guestAddress);
      var i := |entries|;
      assert entries[..i] == entries;
      while i > 0
        invariant 0 <= i <= |entries|
        invariant Owner(entries, p) == Owner(entries[..i], p)
      {
        i := i - 1;
        assert entries[..i + 1][..i] == entries[..i];
        if entries[i].Covers(p) {
          return Some(entries[i].identity);
        }
      }
      return None;
    }

    method ResolveRange(r: Range) returns (owner: Option<ImageIdentity>)
      ensures owner == if r.InPhysicalSpace() then RangeOwner(entries, r) else None
    {
      if !r.Valid() || r.end > PHYSICAL_SPACE {
        return None;
      }
      var i := |entries|;
      assert entries[..i] == entries;
      while i > 0
        invariant 0 <= i <= |entries|
        invariant RangeOwner(entries, r) == RangeOwner(entries[..i], r)
      {
        i := i - 1;
        assert entries[..i + 1][..i] == entries[..i];
        if !entries[i].active {
          continue;
        }
        var parts := entries[i].ranges;
        FirstOverlapMeaning(parts, r);
        var j := 0;
        while j < |parts|
          invariant 0 <= j <= |parts|
          invariant forall k :: 0 <= k < j ==> !Overlaps(parts[k], r)
        {
          var part := parts[j];
          if !(part.end <= r.begin || part.begin >= r.end) {
            assert FirstOverlap(parts, r) == Some(part);
            if part.begin <= r.begin && part.end >= r.end {
              return Some(entries[i].identity);
            }
            return None;
          }
          j := j + 1;
        }
      }
      return None;
    }

    method Residencies() returns (active: seq<ImageDescription>)
      ensures active == ActiveResidencies(entries)
    {
      active := [];
      var i := 0;
      while i < |entries|
        invariant 0 <= i <= |entries|
        invariant active == ActiveResidencies(entries[..i])
      {
        assert entries[..i + 1][..i] == entries[..i];
        if entries[i].active {
          active := active + [entries[i].Description()];
        }
        i := i + 1;
      }
      assert entries[..|entries|] == entries;
    }

    /** The first loop of an adoption: deactivates all but the longest prefix the residencies match. */
    method KeepMatching(residencies: seq<ImageDescription>) returns (kept: nat)
      modifies this`entries
      ensures var scan := ScanForAdoption(old(entries), residencies); entries == scan.entries && kept == scan.kept
      ensures kept <= |residencies|
    {
      ghost var old_ := entries;
      kept := 0;
      var matching := true;
      var i := 0;
      while i < |entries|
        invariant 0 <= i <= |entries| == |old_| && kept <= |residencies|
        invariant entries[i..] == old_[i..]
        invariant ScanForAdoption(old_[..i], residencies) == AdoptScan(entries[..i], kept, matching)
      {
        assert old_[..i + 1][..i] == old_[..i];
        assert entries[i] == entries[i..][0] == old_[i];
        ghost var was := entries;
        if !entries[i].active {
        } else if matching && kept < |residencies| && entries[i].Description() == residencies[kept] {
          kept := kept + 1;
        } else {
          matching := false;
          entries := entries[i := entries[i].(active := false)];
        }
        assert entries[..i + 1] == was[..i] + [entries[i]];
        assert entries[i + 1..] == was[i..][1..] == old_[i..][1..];
        i := i + 1;
      }
      assert old_[..|old_|] == old_ && entries[..|entries|] == entries;
    }

    /** The second loop: pushes the rest, each under the next identity. */
    method AppendAll(residencies: seq<ImageDescription>)
      modifies this`entries, this`nextId, this`nextGeneration
      ensures Model() == Append(old(Model()), residencies)
    {
      var i := 0;
      while i < |residencies|
        invariant 0 <= i <= |residencies|
        invariant Model() == Append(old(Model()), residencies[..i])
      {
        assert residencies[..i + 1][..i] == residencies[..i];
        var r := residencies[i];
        entries := entries + [Entry(r.name, r.ranges, r.content, ImageIdentity(nextId, nextGeneration), true)];
        nextId, nextGeneration := nextId + 1, nextGeneration + 1;
        i := i + 1;
      }
      assert residencies[..|residencies|] == residencies;
    }

    method Adopt(residencies: seq<ImageDescription>)
      modifies this, epoch
      ensures Model() == Apply(old(Model()), AdoptOp(residencies))
      ensures epoch.value == old(epoch.value) + 1
    {
      var kept := KeepMatching(residencies);
      AppendAll(residencies[kept..]);
      Changed();
    }
  }
}
