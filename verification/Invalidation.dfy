/** Which translated words a store invalidates: the physical image of the written range, word by word, across the
    wrap of the physical space. */
module Invalidations {
  import opened GuestTypes

  /** The whole translation, or the word-aligned physical ranges invalidated in turn. */
  datatype Invalidation = Everything | Segments(ranges: seq<Range>)

  /** A physical segment widened to whole words; an empty one invalidates nothing. */
  function AlignedSegment(begin: Word, length: nat): (ranges: seq<Range>)
    requires begin + length <= PHYSICAL_SPACE
    ensures |ranges| <= 1
  {
    if length == 0 then [] else [Range(begin / 4 * 4, (begin + length + 3) / 4 * 4)]
  }

  function Invalidated(written: Range): Invalidation {
    if written.end <= written.begin then Segments([])
    else
      var length := written.end - written.begin;
      if length >= PHYSICAL_SPACE then Everything
      else
        var begin := Physical(written.begin);
        var first := if length < PHYSICAL_SPACE - begin then length else PHYSICAL_SPACE - begin;
        Segments(AlignedSegment(begin, first) + AlignedSegment(0, length - first))
  }

  /** An address t bytes past another folds to the fold plus t, or wraps once. */
  lemma PhysicalOffset(base: Word, t: nat)
    requires base + t < 0x1_0000_0000 && t < PHYSICAL_SPACE
    ensures var begin := Physical(base);
            Physical(base + t) == if begin + t < PHYSICAL_SPACE then begin + t else begin + t - PHYSICAL_SPACE
  {
  }

  /** Every written byte's physical image lies in a segment that is invalidated. */
  lemma EveryWrittenByteIsCovered(written: Range, a: Word)
    requires written.Contains(a)
    ensures Invalidated(written) == Everything ||
            exists r :: r in Invalidated(written).ranges && r.Contains(Physical(a))
  {
    if Invalidated(written) != Everything {
      var begin, t := Physical(written.begin), a - written.begin;
      PhysicalOffset(written.begin, t);
      var ranges := Invalidated(written).ranges;
      assert ranges[if begin + t < PHYSICAL_SPACE then 0 else 1].Contains(Physical(a));
    }
  }

  /** A word of an aligned segment holds a byte of the segment itself. */
  lemma AlignedWordHasAByte(begin: Word, length: nat, r: Range, word: Word) returns (t: nat)
    requires begin + length <= PHYSICAL_SPACE && r in AlignedSegment(begin, length)
    requires r.Contains(word) && word % 4 == 0
    ensures t < length && (begin + t) / 4 == word / 4
  {
    t := if word < begin then 0 else word - begin;
  }

  /** Every invalidated word holds a byte that was written. */
  lemma EveryInvalidatedWordWasWritten(written: Range, r: Range, word: Word) returns (a: Word)
    requires Invalidated(written) != Everything && r in Invalidated(written).ranges
    requires r.Contains(word) && word % 4 == 0
    ensures written.Contains(a) && Physical(a) / 4 == word / 4
  {
    var begin := Physical(written.begin);
    var length := written.end - written.begin;
    var first := if length < PHYSICAL_SPACE - begin then length else PHYSICAL_SPACE - begin;
    var t;
    if r in AlignedSegment(begin, first) {
      t := AlignedWordHasAByte(begin, first, r, word);
    } else {
      t := AlignedWordHasAByte(0, length - first, r, word);
      t := first + t;
    }
    a := written.begin + t;
    PhysicalOffset(written.begin, t);
  }

  /** No segment is empty, unaligned or past the physical space, and at most two are issued. */
  lemma SegmentsAreWordsOfThePhysicalSpace(written: Range)
    ensures Invalidated(written) != Everything ==>
              && |Invalidated(written).ranges| <= 2
              && forall r :: r in Invalidated(written).ranges ==>
                   r.InPhysicalSpace() && r.begin % 4 == 0 && r.end % 4 == 0
    ensures Invalidated(written) == Everything <==> written.end - written.begin >= PHYSICAL_SPACE
  {
  }

  /** The executor's invalidation requests, in order; `everything` once the whole translation was dropped. */
  class Translations {
    var everything: bool
    var invalidated: seq<Range>

    constructor ()
      ensures !everything && invalidated == []
    {
      everything, invalidated := false, [];
    }

    method Invalidate(r: Range)
      modifies this`invalidated
      ensures invalidated == old(invalidated) + if r.Valid() then [r] else []
    {
      if r.end > r.begin {
        invalidated := invalidated + [r];
      }
    }

    method InvalidatePhysicalSegment(begin: Word, length: nat)
      requires begin + length <= PHYSICAL_SPACE
      modifies this`invalidated
      ensures invalidated == old(invalidated) + AlignedSegment(begin, length)
    {
      if length == 0 {
        return;
      }
      var alignedBegin: Word := begin / 4 * 4;
      var alignedEnd: Word := (begin + length + 3) / 4 * 4;
      Invalidate(Range(alignedBegin, alignedEnd));
    }

    method NotifyExecutableWrite(written: Range)
      modifies this
      ensures match Invalidated(written)
              case Everything => everything && invalidated == old(invalidated)
              case Segments(ranges) => everything == old(everything) && invalidated == old(invalidated) + ranges
    {
      if written.end <= written.begin {
        return;
      }
      var length := written.end - written.begin;
      if length >= PHYSICAL_SPACE {
        everything := true;
        return;
      }
      var begin := Physical(written.begin);
      var first := if length < PHYSICAL_SPACE - begin then length else PHYSICAL_SPACE - begin;
      InvalidatePhysicalSegment(begin, first);
      var remaining := length - first;
      if remaining != 0 {
        InvalidatePhysicalSegment(0, remaining);
      }
    }
  }
}
