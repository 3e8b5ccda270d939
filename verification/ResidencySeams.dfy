/** Exactly which residencies a catalog can hold with its range lookup still agreeing with its point lookup, told
    from the fragments alone. */
module ResidencySeams {
  import opened GuestTypes
  import opened ImageCatalogs

  // ---- the residencies, oldest first -----------------------------------------------------------------

  /** Residency o is the newest that holds byte p. */
  ghost predicate Tops(residencies: seq<ImageDescription>, o: int, p: int) {
    && 0 <= o < |residencies| && CoversAny(residencies[o].ranges, p)
    && forall later :: o < later < |residencies| ==> !CoversAny(residencies[later].ranges, p)
  }

  /** Residency k's fragment j is the first its list offers for q, and no newer residency offers one. */
  ghost predicate Fronts(residencies: seq<ImageDescription>, q: Range, k: int, j: int) {
    && 0 <= k < |residencies| && 0 <= j < |residencies[k].ranges| && Overlaps(residencies[k].ranges[j], q)
    && (forall i :: 0 <= i < j ==> !Overlaps(residencies[k].ranges[i], q))
    && (forall later, i :: k < later < |residencies| && 0 <= i < |residencies[later].ranges| ==>
          !Overlaps(residencies[later].ranges[i], q))
  }

  /** A fragment meets another, or holds no byte, in the middle of bytes that one residency tops, and nothing newer or
      earlier in its list shields the seam. */
  ghost predicate Spoils(residencies: seq<ImageDescription>, k: int, j: int, q: Range, o: int) {
    && Fronts(residencies, q, k, j) && IsSeam(residencies[k].ranges[j], q) && q.InPhysicalSpace()
    && forall p :: q.begin <= p < q.end ==> Tops(residencies, o, p)
  }

  ghost predicate Unspoiled(residencies: seq<ImageDescription>) {
    forall k, j, q: Range, o :: !Spoils(residencies, k, j, q, o)
  }

  // ---- an entry and its place among the active residencies -------------------------------------------

  lemma {:induction false} ActivePosition(entries: seq<Entry>, i: nat)
    requires i < |entries| && entries[i].active
    ensures ActiveBefore(entries, i) < |ActiveResidencies(entries)|
    ensures ActiveResidencies(entries)[ActiveBefore(entries, i)] == entries[i].Description()
    decreases |entries|
  {
    if i < |entries| - 1 {
      var init := entries[..|entries| - 1];
      assert init[..i] == entries[..i];
      ActivePosition(init, i);
    }
  }

  lemma {:induction false} ActiveOrder(entries: seq<Entry>, i: nat, j: nat)
    requires i < j <= |entries| && entries[i].active
    ensures ActiveBefore(entries, i) < ActiveBefore(entries, j)
  {
    var init := entries[..j];
    assert init[..i] == entries[..i];
    ActivePosition(init, i);
  }

  lemma {:induction false} ActiveFound(entries: seq<Entry>, a: nat) returns (i: nat)
    requires a < |ActiveResidencies(entries)|
    ensures i < |entries| && entries[i].active && ActiveBefore(entries, i) == a
    ensures ActiveResidencies(entries)[a] == entries[i].Description()
  {
    var last := |entries| - 1;
    if a == |ActiveResidencies(entries[..last])| {
      i := last;
    } else {
      i := ActiveFound(entries[..last], a);
      assert entries[..last][..i] == entries[..i];
    }
    ActivePosition(entries, i);
  }

  // ---- entries against residencies -------------------------------------------------------------------

  lemma {:induction false} FrontDecides(entries: seq<Entry>, q: Range, k: nat, j: int)
    requires k < |entries| && entries[k].active
    ensures Fronts(ActiveResidencies(entries), q, ActiveBefore(entries, k), j) <==> Decides(entries, q, k, j)
  {
    var residencies, a := ActiveResidencies(entries), ActiveBefore(entries, k);
    ActivePosition(entries, k);
    if Fronts(residencies, q, a, j) {
      forall later, i | k < later < |entries| && entries[later].active && 0 <= i < |entries[later].ranges|
        ensures !Overlaps(entries[later].ranges[i], q)
      {
        ActiveOrder(entries, k, later);
        ActivePosition(entries, later);
        assert !Overlaps(residencies[ActiveBefore(entries, later)].ranges[i], q);
      }
    }
    if Decides(entries, q, k, j) {
      forall later, i | a < later < |residencies| && 0 <= i < |residencies[later].ranges|
        ensures !Overlaps(residencies[later].ranges[i], q)
      {
        var at := ActiveFound(entries, later);
        if at < k {
          ActiveOrder(entries, at, k);
        }
        assert !Overlaps(entries[at].ranges[i], q);
      }
    }
  }

  lemma {:induction false} TopOwns(entries: seq<Entry>, o: nat, p: int)
    requires o < |entries| && entries[o].active && Tops(ActiveResidencies(entries), ActiveBefore(entries, o), p)
    ensures Owner(entries, p) == Some(entries[o].identity)
  {
    var residencies := ActiveResidencies(entries);
    ActivePosition(entries, o);
    forall later | o < later < |entries| ensures !entries[later].Covers(p) {
      if entries[later].active {
        ActiveOrder(entries, o, later);
        ActivePosition(entries, later);
        assert !CoversAny(residencies[ActiveBefore(entries, later)].ranges, p);
      }
    }
    OwnerIsNewestCover(entries, p, o);
  }

  lemma {:induction false} OwnerTops(entries: seq<Entry>, p: int) returns (o: nat)
    requires Owner(entries, p).Some?
    ensures o < |entries| && entries[o].active && Owner(entries, p) == Some(entries[o].identity)
    ensures Tops(ActiveResidencies(entries), ActiveBefore(entries, o), p)
  {
    var residencies := ActiveResidencies(entries);
    o := NewestCover(entries, p);
    ActivePosition(entries, o);
    forall later | ActiveBefore(entries, o) < later < |residencies| ensures !CoversAny(residencies[later].ranges, p) {
      var at := ActiveFound(entries, later);
      if at < o {
        ActiveOrder(entries, at, o);
      }
      assert !entries[at].Covers(p);
    }
  }

  lemma {:induction false} NewestCover(entries: seq<Entry>, p: int) returns (o: nat)
    requires Owner(entries, p).Some?
    ensures o < |entries| && entries[o].Covers(p) && Owner(entries, p) == Some(entries[o].identity)
    ensures forall later :: o < later < |entries| ==> !entries[later].Covers(p)
  {
    o := |entries| - 1;
    if !entries[o].Covers(p) {
      var last := o;
      o := NewestCover(entries[..last], p);
      forall later | o < later < |entries| ensures !entries[later].Covers(p) {
        assert later == last || entries[..last][later] == entries[later];
      }
    }
  }

  lemma {:induction false} SpoiledSeamIsNotExact(entries: seq<Entry>, k: int, j: int, q: Range, o: int)
    requires Spoils(ActiveResidencies(entries), k, j, q, o)
    ensures !RangeExact(entries)
  {
    assert Tops(ActiveResidencies(entries), o, q.begin);
    var decider := ActiveFound(entries, k);
    var owner := ActiveFound(entries, o);
    FrontDecides(entries, q, decider, j);
    DeciderGivesRangeOwner(entries, q, decider, j);
    forall p | q.begin <= p < q.end ensures Owner(entries, p) == Some(entries[owner].identity) {
      TopOwns(entries, owner, p);
    }
    assert SoleOwner(entries, q, entries[owner].identity);
  }

  lemma {:induction false} InexactHasASpoiledSeam(entries: seq<Entry>, r: Range, identity: ImageIdentity)
    requires DistinctIdentities(entries) && r.InPhysicalSpace() && SoleOwner(entries, r, identity)
    requires RangeOwner(entries, r) != Some(identity)
    ensures !Unspoiled(ActiveResidencies(entries))
  {
    var residencies := ActiveResidencies(entries);
    assert Owner(entries, r.begin) == Some(identity);
    var k, j := SomeOverlapHasDecider(entries, r);
    if RangeOwner(entries, r).Some? {
      RangeOwnerIsSound(entries, r, RangeOwner(entries, r).value);
    } else if k == -1 {
      OwnerIsNoneWhenUncovered(entries, r.begin);
    } else {
      DeciderGivesRangeOwner(entries, r, k, j);
      var q := SeamInsideRange(entries, r, k, j);
      FrontDecides(entries, q, k, j);
      ActivePosition(entries, k);
      assert q.InPhysicalSpace();
      var o := OwnerTops(entries, q.begin);
      forall p | q.begin <= p < q.end ensures Tops(residencies, ActiveBefore(entries, o), p) {
        var same := OwnerTops(entries, p);
        assert entries[same].identity == entries[o].identity;
      }
      assert Spoils(residencies, ActiveBefore(entries, k), j, q, ActiveBefore(entries, o));
    }
  }

  /** In any catalog of distinct identities, range and point lookup agree on every range if and only if no fragment of
      the active residencies spoils a seam. */
  lemma {:induction false} RangeExactIffUnspoiled(entries: seq<Entry>)
    requires DistinctIdentities(entries)
    ensures RangeExact(entries) <==> Unspoiled(ActiveResidencies(entries))
  {
    if RangeExact(entries) {
      forall k, j, q: Range, o ensures !Spoils(ActiveResidencies(entries), k, j, q, o) {
        if Spoils(ActiveResidencies(entries), k, j, q, o) {
          SpoiledSeamIsNotExact(entries, k, j, q, o);
        }
      }
    }
    if Unspoiled(ActiveResidencies(entries)) {
      forall r: Range, identity | r.InPhysicalSpace()
        ensures RangeOwner(entries, r) == Some(identity) <==> SoleOwner(entries, r, identity)
      {
        if RangeOwner(entries, r) == Some(identity) {
          RangeOwnerIsSound(entries, r, identity);
        } else if SoleOwner(entries, r, identity) {
          InexactHasASpoiledSeam(entries, r, identity);
        }
      }
    }
  }

  /** `adopt` checks nothing of its residencies. Whatever the catalog held before, range lookup is exact afterwards
      if and only if the residencies handed in are unspoiled. */
  lemma AdoptKeepsRangeExactIff(c: Catalog, residencies: seq<ImageDescription>)
    requires c.Issued()
    ensures RangeExact(Adopted(c, residencies).entries) <==> Unspoiled(residencies)
  {
    AdoptedResidencies(c, residencies);
    AdoptKeepsIssued(c, residencies);
    IssuedIsDistinct(Adopted(c, residencies));
    RangeExactIffUnspoiled(Adopted(c, residencies).entries);
  }
}
