/**
  What the operations on continuous ranges promise, proved about the model in
  `Continuous`: the classifier is exhaustive, exclusive and symmetric, and the set
  operations agree with membership.
*/
module ContinuousAlgebra {
  import opened Wrappers
  import opened Bounds
  import opened Continuous
  import Relation

  // ---------------------------------------------------------------------------
  // The classifier
  // ---------------------------------------------------------------------------

  /** At most one relation holds of two proper spans: the thirteen relations are exclusive. */
  lemma HoldsUnique(r1: Relation.RangesRelation, r2: Relation.RangesRelation,
                    s1: Position, e1: Position, s2: Position, e2: Position)
    requires PosLe(s1, e1) && PosLe(s2, e2)
    requires Holds(r1, s1, e1, s2, e2) && Holds(r2, s1, e1, s2, e2)
    ensures r1 == r2
  {
    PosOrderTotal(s1, e1, s2);
    PosOrderTotal(e1, s2, e2);
    PosOrderTotal(s2, e2, s1);
    PosOrderTotal(e2, s1, e1);
  }

  /** Exchanging the two spans turns each relation into its converse. */
  lemma HoldsConverse(r: Relation.RangesRelation, s1: Position, e1: Position, s2: Position, e2: Position)
    requires Holds(r, s1, e1, s2, e2)
    ensures Holds(Relation.Converse(r), s2, e2, s1, e1)
  {
  }

  /** A non-empty range spans from its start position to its end position. */
  lemma NonEmptySpan(r: ContinuousRange)
    requires !IsEmpty(r)
    ensures !r.Empty? && PosLe(StartPos(r), EndPos(r))
  {
    IsEmptyIffBoundsCross(r);
    CmpBoundsByPosition(StartBound(r).value, Start, EndBound(r).value, End);
  }

  /** Two non-empty ranges always have a relation: the library's final panic is unreachable. */
  lemma CompareTotal(a: ContinuousRange, b: ContinuousRange)
    requires !IsEmpty(a) && !IsEmpty(b)
    ensures Compare(a, b).Some?
    ensures forall rel :: Holds(rel, StartPos(a), EndPos(a), StartPos(b), EndPos(b)) ==>
                          Compare(a, b) == Some(rel)
  {
    NonEmptySpan(a);
    NonEmptySpan(b);
    forall rel | Holds(rel, StartPos(a), EndPos(a), StartPos(b), EndPos(b))
      ensures Compare(a, b) == Some(rel)
    {
      HoldsUnique(rel, Compare(a, b).value, StartPos(a), EndPos(a), StartPos(b), EndPos(b));
    }
  }

  /** `compare(b, a)` is the mirror image of `compare(a, b)`. */
  lemma CompareConverse(a: ContinuousRange, b: ContinuousRange)
    ensures Compare(b, a) ==
              (match Compare(a, b) case Some(rel) => Some(Relation.Converse(rel)) case None => None)
  {
    if !IsEmpty(a) && !IsEmpty(b) {
      var rel := Compare(a, b).value;
      HoldsConverse(rel, StartPos(a), EndPos(a), StartPos(b), EndPos(b));
      CompareTotal(b, a);
    }
  }

  /** Whether the position `p` lies in the span from `s` to `e`. */
  ghost predicate Within(s: Position, e: Position, p: Position)
  {
    PosLe(s, p) && PosLe(p, e)
  }

  /**
    Read on the spans alone: a relation overlaps exactly when the spans share a position,
    and covers exactly when the second span lies inside the first.
  */
  lemma HoldsMeaning(rel: Relation.RangesRelation, s1: Position, e1: Position, s2: Position, e2: Position)
    requires PosLe(s1, e1) && PosLe(s2, e2) && Holds(rel, s1, e1, s2, e2)
    ensures Relation.Intersects(rel) <==> (PosLe(s2, e1) && PosLe(s1, e2))
    ensures Relation.Contains(rel) <==> (PosLe(s1, s2) && PosLe(e2, e1))
  {
    PosOrderTotal(s1, e1, s2);
    PosOrderTotal(e1, s2, e2);
    PosOrderTotal(s2, e2, s1);
    PosOrderTotal(e2, s1, e1);
  }

  /**
    For two non-empty ranges, the relation overlaps exactly when the spans share a position,
    and covers exactly when the second span lies inside the first.
  */
  lemma RelationMeaning(a: ContinuousRange, b: ContinuousRange)
    requires !IsEmpty(a) && !IsEmpty(b)
    ensures Relation.Intersects(Compare(a, b).value) <==>
              (PosLe(StartPos(b), EndPos(a)) && PosLe(StartPos(a), EndPos(b)))
    ensures Relation.Contains(Compare(a, b).value) <==>
              (PosLe(StartPos(a), StartPos(b)) && PosLe(EndPos(b), EndPos(a)))
  {
    NonEmptySpan(a);
    NonEmptySpan(b);
    HoldsMeaning(Compare(a, b).value, StartPos(a), EndPos(a), StartPos(b), EndPos(b));
  }

  /**
    A value lies in `a` exactly when `a` covers the one-point range of that value:
    value containment and relation containment agree.
  */
  lemma ContainsAgreesWithCompare(a: ContinuousRange, x: int)
    ensures Contains(a, x) <==>
              (Compare(a, Single(x)).Some? && Relation.Contains(Compare(a, Single(x)).value))
  {
    ContainsBySpan(a, x);
    IsEmptyIffBoundsCross(a);
    if !IsEmpty(a) {
      RelationMeaning(a, Single(x));
    }
  }

  /** A `Meets` result always touches at an included value shared by both ranges. */
  lemma MeetsShape(a: ContinuousRange, b: ContinuousRange)
    requires Compare(a, b) == Some(Relation.Meets)
    ensures EndBound(a).Some? && EndBound(a).value.Included?
    ensures StartBound(b) == EndBound(a)
    ensures PosLt(StartPos(a), EndPos(a)) && PosLt(StartPos(b), EndPos(b))
  {
    TouchingEndpoints(a, b);
  }

  // ---------------------------------------------------------------------------
  // intersects
  // ---------------------------------------------------------------------------

  /** `intersects` holds exactly for two non-empty ranges whose spans share a position. */
  lemma IntersectsMeaning(a: ContinuousRange, b: ContinuousRange)
    ensures Intersects(a, b) <==>
              (!IsEmpty(a) && !IsEmpty(b) &&
               PosLe(StartPos(b), EndPos(a)) && PosLe(StartPos(a), EndPos(b)))
  {
    if !IsEmpty(a) && !IsEmpty(b) {
      RelationMeaning(a, b);
    }
  }

  /** A value in both ranges makes them intersect; two empty ranges never do. */
  lemma IntersectsSound(a: ContinuousRange, b: ContinuousRange, x: int)
    ensures Contains(a, x) && Contains(b, x) ==> Intersects(a, b)
    ensures IsEmpty(a) && IsEmpty(b) ==> !Intersects(a, b)
  {
    ContainsBySpan(a, x);
    ContainsBySpan(b, x);
    IsEmptyIffBoundsCross(a);
    IsEmptyIffBoundsCross(b);
    IntersectsMeaning(a, b);
    if Contains(a, x) && Contains(b, x) {
      PosOrderTotal(StartPos(b), Point(x), EndPos(a));
      PosOrderTotal(StartPos(a), Point(x), EndPos(b));
    }
  }

  // ---------------------------------------------------------------------------
  // The set operations on spans
  // ---------------------------------------------------------------------------

  /** Which single span covers the union of two spans, relation by relation. */
  lemma SpanUnion(rel: Relation.RangesRelation, s1: Position, e1: Position, s2: Position, e2: Position, p: Position)
    requires PosLe(s1, e1) && PosLe(s2, e2) && Holds(rel, s1, e1, s2, e2)
    ensures rel in {Relation.Meets, Relation.Overlaps} ==>
              (Within(s1, e2, p) <==> Within(s1, e1, p) || Within(s2, e2, p))
    ensures rel in {Relation.IsMet, Relation.IsOverlapped} ==>
              (Within(s2, e1, p) <==> Within(s1, e1, p) || Within(s2, e2, p))
    ensures rel in {Relation.Starts, Relation.IsStrictlyContained, Relation.Finishes} ==>
              (Within(s2, e2, p) <==> Within(s1, e1, p) || Within(s2, e2, p))
    ensures rel in {Relation.IsStarted, Relation.StrictlyContains, Relation.IsFinished, Relation.Equal} ==>
              (Within(s1, e1, p) <==> Within(s1, e1, p) || Within(s2, e2, p))
  {
    PosOrderTotal(s1, p, s2);
    PosOrderTotal(e1, p, e2);
    PosOrderTotal(s2, p, s1);
    PosOrderTotal(e2, p, e1);
    PosOrderTotal(s1, e1, e2);
    PosOrderTotal(s2, e2, e1);
    PosOrderTotal(s1, s2, e1);
    PosOrderTotal(s2, s1, e2);
  }

  /** Which single span is the intersection of two spans, relation by relation. */
  lemma SpanIntersection(rel: Relation.RangesRelation, s1: Position, e1: Position, s2: Position, e2: Position, p: Position)
    requires PosLe(s1, e1) && PosLe(s2, e2) && Holds(rel, s1, e1, s2, e2)
    ensures rel in {Relation.StrictlyBefore, Relation.StrictlyAfter} ==>
              !(Within(s1, e1, p) && Within(s2, e2, p))
    ensures rel == Relation.Meets ==> (p == e1 <==> Within(s1, e1, p) && Within(s2, e2, p))
    ensures rel == Relation.IsMet ==> (p == s1 <==> Within(s1, e1, p) && Within(s2, e2, p))
    ensures rel == Relation.Overlaps ==> (Within(s2, e1, p) <==> Within(s1, e1, p) && Within(s2, e2, p))
    ensures rel == Relation.IsOverlapped ==> (Within(s1, e2, p) <==> Within(s1, e1, p) && Within(s2, e2, p))
    ensures rel in {Relation.Starts, Relation.IsStrictlyContained, Relation.Finishes, Relation.Equal} ==>
              (Within(s1, e1, p) <==> Within(s1, e1, p) && Within(s2, e2, p))
    ensures rel in {Relation.IsStarted, Relation.StrictlyContains, Relation.IsFinished} ==>
              (Within(s2, e2, p) <==> Within(s1, e1, p) && Within(s2, e2, p))
  {
    PosOrderTotal(s1, p, s2);
    PosOrderTotal(e1, p, e2);
    PosOrderTotal(s2, p, s1);
    PosOrderTotal(e2, p, e1);
    PosOrderTotal(s1, p, e2);
    PosOrderTotal(s2, p, e1);
    PosOrderTotal(p, e1, s2);
    PosOrderTotal(p, e2, s1);
  }

  /**
    Which part of the first span is left once the second is removed, relation by relation:
    everything, nothing, the part before the second span's start, or the part after its end.
  */
  lemma SpanDifference(rel: Relation.RangesRelation, s1: Position, e1: Position, s2: Position, e2: Position, p: Position)
    requires PosLe(s1, e1) && PosLe(s2, e2) && Holds(rel, s1, e1, s2, e2)
    ensures rel in {Relation.StrictlyBefore, Relation.StrictlyAfter} ==>
              (Within(s1, e1, p) <==> Within(s1, e1, p) && !Within(s2, e2, p))
    ensures rel in {Relation.Equal, Relation.IsStrictlyContained, Relation.Starts, Relation.Finishes} ==>
              !(Within(s1, e1, p) && !Within(s2, e2, p))
    ensures rel in {Relation.Meets, Relation.Overlaps, Relation.IsFinished} ==>
              (PosLe(s1, p) && !PosLe(s2, p) <==> Within(s1, e1, p) && !Within(s2, e2, p))
    ensures rel in {Relation.IsMet, Relation.IsOverlapped, Relation.IsStarted} ==>
              (!PosLe(p, e2) && PosLe(p, e1) <==> Within(s1, e1, p) && !Within(s2, e2, p))
  {
    PosOrderTotal(s1, p, s2);
    PosOrderTotal(e1, p, e2);
    PosOrderTotal(s2, p, s1);
    PosOrderTotal(e2, p, e1);
    PosOrderTotal(s1, p, e2);
    PosOrderTotal(s2, p, e1);
    PosOrderTotal(p, e1, s2);
    PosOrderTotal(p, e2, s1);
  }

  // ---------------------------------------------------------------------------
  // union
  // ---------------------------------------------------------------------------

  /** A single-range union holds exactly the values of the two operands. */
  lemma UnionMembership(a: ContinuousRange, b: ContinuousRange, x: int)
    requires Union(a, b).Some?
    ensures Contains(Union(a, b).value, x) <==> Contains(a, x) || Contains(b, x)
  {
    if a.Empty? || b.Empty? || a.Full? || b.Full? {
    } else if IsEmpty(a) || IsEmpty(b) {
      IsEmptyIffBoundsCross(a);
      IsEmptyIffBoundsCross(b);
    } else {
      NonEmptySpan(a);
      NonEmptySpan(b);
      ContainsBySpan(a, x);
      ContainsBySpan(b, x);
      SpanUnion(Compare(a, b).value, StartPos(a), EndPos(a), StartPos(b), EndPos(b), Point(x));
    }
  }

  /**
    Apart from the `Empty` and `Full` shortcuts, `union` has no single-range answer exactly
    when the operands are strictly apart or exactly one of them is empty.
  */
  lemma UnionNone(a: ContinuousRange, b: ContinuousRange)
    requires !a.Empty? && !b.Empty? && !a.Full? && !b.Full?
    ensures Union(a, b).None? <==>
              Compare(a, b) in {None, Some(Relation.StrictlyBefore), Some(Relation.StrictlyAfter)}
  {
  }

  /** `[1..5)` and `[5..10]` do not touch under the tie-break table, so they have no union. */
  lemma UnionHalfOpenTouching()
    ensures Compare(EndExclusive(1, 5), Inclusive(5, 10)) == Some(Relation.StrictlyBefore)
    ensures Union(EndExclusive(1, 5), Inclusive(5, 10)) == None
  {
    CompareTotal(EndExclusive(1, 5), Inclusive(5, 10));
  }

  // ---------------------------------------------------------------------------
  // intersection
  // ---------------------------------------------------------------------------

  /** Each arm of `intersection` holds exactly the values of both operands, under its relation. */
  lemma IntersectionArmMembership(rel: Relation.RangesRelation, a: ContinuousRange, b: ContinuousRange, x: int)
    requires !IsEmpty(a) && !IsEmpty(b)
    requires Holds(rel, StartPos(a), EndPos(a), StartPos(b), EndPos(b))
    ensures rel == Relation.Meets ==> EndBound(a).value.Included?
    ensures rel == Relation.IsMet ==> StartBound(a).value.Included?
    ensures Contains(IntersectionArm(rel, a, b), x) <==> Contains(a, x) && Contains(b, x)
  {
    NonEmptySpan(a);
    NonEmptySpan(b);
    ContainsBySpan(a, x);
    ContainsBySpan(b, x);
    SpanIntersection(rel, StartPos(a), EndPos(a), StartPos(b), EndPos(b), Point(x));
  }

  /** The intersection holds exactly the values of both operands. */
  lemma IntersectionMembership(a: ContinuousRange, b: ContinuousRange, x: int)
    ensures Contains(Intersection(a, b), x) <==> Contains(a, x) && Contains(b, x)
  {
    if a.Empty? || b.Empty? || a.Full? || b.Full? {
    } else if IsEmpty(a) || IsEmpty(b) {
      IsEmptyIffBoundsCross(a);
      IsEmptyIffBoundsCross(b);
    } else {
      IntersectionArmMembership(Compare(a, b).value, a, b, x);
    }
  }

  /** Ranges strictly apart intersect in `Empty`; touching ranges in their touching value. */
  lemma IntersectionCases(a: ContinuousRange, b: ContinuousRange)
    requires !a.Empty? && !b.Empty? && !a.Full? && !b.Full?
    ensures Compare(a, b) in {Some(Relation.StrictlyBefore), Some(Relation.StrictlyAfter), None} ==>
              Intersection(a, b) == Empty
    ensures Compare(a, b) == Some(Relation.Meets) ==>
              Intersection(a, b) == Single(EndBound(a).value.value) &&
              StartBound(b) == Some(Included(EndBound(a).value.value))
    ensures Compare(a, b) == Some(Relation.IsMet) ==>
              Intersection(a, b) == Single(StartBound(a).value.value) &&
              EndBound(b) == Some(Included(StartBound(a).value.value))
  {
    if Compare(a, b) == Some(Relation.Meets) {
      TouchingEndpoints(a, b);
    } else if Compare(a, b) == Some(Relation.IsMet) {
      TouchingEndpoints(b, a);
    }
  }

  // ---------------------------------------------------------------------------
  // difference
  // ---------------------------------------------------------------------------

  /** The relation table of `difference` once neither operand is tagged `Empty`. */
  lemma DifferenceCases(a: ContinuousRange, b: ContinuousRange)
    requires !a.Empty? && !b.Empty?
    ensures Compare(a, b) in {Some(Relation.StrictlyBefore), Some(Relation.StrictlyAfter)} ==>
              Difference(a, b) == Some(a)
    ensures Compare(a, b) in {Some(Relation.Equal), Some(Relation.Starts), Some(Relation.Finishes),
                              Some(Relation.IsStrictlyContained)} ==>
              Difference(a, b) == Some(Empty)
    ensures Difference(a, b).None? <==> Compare(a, b) in {None, Some(Relation.StrictlyContains)}
  {
    var c := Compare(a, b);
    assert Difference(a, b) == DifferenceByRelation(a, b);
    if c.Some? {
      assert DifferenceByRelation(a, b) == DifferenceArm(c.value, a, b);
    }
  }

  /** Each arm of `difference` that answers holds exactly the values of `a` outside `b`. */
  lemma DifferenceArmMembership(rel: Relation.RangesRelation, a: ContinuousRange, b: ContinuousRange, x: int)
    requires !IsEmpty(a) && !IsEmpty(b)
    requires Holds(rel, StartPos(a), EndPos(a), StartPos(b), EndPos(b))
    requires rel != Relation.StrictlyContains
    ensures Contains(DifferenceArm(rel, a, b).value, x) <==> Contains(a, x) && !Contains(b, x)
  {
    NonEmptySpan(a);
    NonEmptySpan(b);
    ContainsBySpan(a, x);
    ContainsBySpan(b, x);
    if rel == Relation.Meets {
      ReverseBoundComplement(EndBound(a).value, x);
    } else if rel == Relation.IsMet {
      ReverseBoundComplement(StartBound(a).value, x);
    } else if rel == Relation.Overlaps || rel == Relation.IsFinished {
      ReverseBoundComplement(StartBound(b).value, x);
    } else if rel == Relation.IsOverlapped || rel == Relation.IsStarted {
      ReverseBoundComplement(EndBound(b).value, x);
    }
    SpanDifference(rel, StartPos(a), EndPos(a), StartPos(b), EndPos(b), Point(x));
  }

  /** Once neither operand is tagged `Empty`, a `Some` difference holds exactly the values of `a` outside `b`. */
  lemma DifferenceByRelationMembership(a: ContinuousRange, b: ContinuousRange, x: int)
    requires !a.Empty? && !b.Empty? && DifferenceByRelation(a, b).Some?
    ensures Contains(DifferenceByRelation(a, b).value, x) <==> Contains(a, x) && !Contains(b, x)
  {
    if IsEmpty(a) || IsEmpty(b) {
      IsEmptyIffBoundsCross(a);
      IsEmptyIffBoundsCross(b);
    } else {
      DifferenceArmMembership(Compare(a, b).value, a, b, x);
    }
  }

  /** As written, `difference` is sound whenever neither operand is tagged `Empty`. */
  lemma DifferenceMembership(a: ContinuousRange, b: ContinuousRange, x: int)
    requires !a.Empty? && !b.Empty? && Difference(a, b).Some?
    ensures Contains(Difference(a, b).value, x) <==> Contains(a, x) && !Contains(b, x)
  {
    DifferenceByRelationMembership(a, b, x);
  }

  /**
    The two `Empty` arms of `difference` as written break set difference: `Empty` minus
    `Full` is `Full`, and `Full` minus `Empty` is `Empty`.
  */
  lemma DifferenceEmptyArmsUnsound()
    ensures Difference(Empty, Full) == Some(Full) && Contains(Full, 0) && !Contains(Empty, 0)
    ensures Difference(Full, Empty) == Some(Empty) && Contains(Full, 0) && !Contains(Empty, 0)
  {
  }

  /** With the `Empty` arms corrected, every `Some` difference holds exactly the values of `a` outside `b`. */
  lemma DifferenceCorrectedMembership(a: ContinuousRange, b: ContinuousRange, x: int)
    requires DifferenceCorrected(a, b).Some?
    ensures Contains(DifferenceCorrected(a, b).value, x) <==> Contains(a, x) && !Contains(b, x)
  {
    if !a.Empty? && !b.Empty? {
      DifferenceByRelationMembership(a, b, x);
    }
  }

  // ---------------------------------------------------------------------------
  // Bounds round trip and normalisation
  // ---------------------------------------------------------------------------

  /** `start()` and `end()` are the two halves of `range_bounds()`, all absent only for `Empty`. */
  lemma StartEndAreRangeBounds(r: ContinuousRange)
    ensures StartBound(r).None? <==> r.Empty?
    ensures EndBound(r).None? <==> r.Empty?
    ensures !r.Empty? ==> RangeBounds(r) == Some((StartBound(r).value, EndBound(r).value))
  {
  }

  /** Reading back the bounds of a normalised non-empty range and rebuilding it gives it back. */
  lemma BoundsRoundTrip(r: ContinuousRange)
    requires !IsEmpty(r) && Simplified(r) == r
    ensures FromBounds(RangeBounds(r).value) == r
  {
  }

  /** Building from a bound pair and reading the bounds back returns the pair, unless the pair is empty. */
  lemma FromBoundsRoundTrip(bounds: (Bound, Bound))
    requires !FromBounds(bounds).Empty?
    ensures RangeBounds(FromBounds(bounds)) == Some(bounds)
  {
  }

  /** `simplify` is idempotent and its result never contradicts its own tag. */
  lemma SimplifyIdempotent(r: ContinuousRange)
    ensures Simplified(Simplified(r)) == Simplified(r)
    ensures IsEmpty(Simplified(r)) <==> Simplified(r).Empty?
  {
  }

  /** Full holds every value; an empty range none. */
  lemma FullAndEmptyMembership(r: ContinuousRange, x: int)
    ensures IsFull(r) ==> Contains(r, x)
    ensures IsEmpty(r) ==> !Contains(r, x)
  {
    IsEmptyIffBoundsCross(r);
  }

  // ---------------------------------------------------------------------------
  // Worked scenarios
  // ---------------------------------------------------------------------------

  /** Touching is about positions, not integers: `(4..5]` holds one integer yet meets `[5..10]`. */
  lemma MeetsAtOneInteger()
    ensures forall x :: Contains(StartExclusive(4, 5), x) <==> x == 5
    ensures Compare(StartExclusive(4, 5), Inclusive(5, 10)) == Some(Relation.Meets)
  {
    CompareTotal(StartExclusive(4, 5), Inclusive(5, 10));
  }

  lemma Scenarios()
    ensures Contains(MakeInclusive(1, 5), 5) && !Contains(MakeEndExclusive(1, 5), 5)
    ensures Compare(MakeInclusive(0, 10), MakeInclusive(10, 20)) == Some(Relation.Meets)
    ensures Compare(MakeInclusive(10, 20), MakeInclusive(0, 10)) == Some(Relation.IsMet)
    ensures Compare(MakeInclusive(1, 5), Inclusive(5, 1)) == None
    ensures Intersection(MakeInclusive(10, 20), MakeExclusive(15, 100)) == MakeStartExclusive(15, 20)
    ensures Compare(Empty, Empty) == Some(Relation.Equal) && !Intersects(Empty, Empty)
  {
    CompareTotal(Inclusive(0, 10), Inclusive(10, 20));
    CompareTotal(Inclusive(10, 20), Inclusive(0, 10));
    CompareTotal(Inclusive(10, 20), Exclusive(15, 100));
  }
}
