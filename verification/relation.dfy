/**
  The thirteen Allen relations between two continuous ranges and the predicates the
  library derives from them (src/relation.rs).
*/
module Relation {

  datatype RangesRelation =
    | StrictlyBefore
    | StrictlyAfter
    | Meets
    | IsMet
    | Overlaps
    | IsOverlapped
    | Starts
    | IsStarted
    | StrictlyContains
    | IsStrictlyContained
    | Finishes
    | IsFinished
    | Equal

  /** Some overlap between the two ranges: every relation but the two strict separations. */
  predicate Intersects(r: RangesRelation)
  {
    match r
    case StrictlyBefore | StrictlyAfter => false
    case Overlaps | IsOverlapped | Meets | IsMet | Starts | IsStarted
       | StrictlyContains | IsStrictlyContained | Finishes | IsFinished | Equal => true
  }

  /** The two ranges are completely apart. */
  predicate Disjoint(r: RangesRelation)
  {
    !Intersects(r)
  }

  /** The first range covers the second one. */
  predicate Contains(r: RangesRelation)
  {
    match r
    case Equal | StrictlyContains | IsFinished | IsStarted => true
    case StrictlyBefore | StrictlyAfter | Overlaps | IsOverlapped | Meets | IsMet
       | Starts | IsStrictlyContained | Finishes => false
  }

  /** The relation seen from the second range: the converse in Allen's algebra. */
  function Converse(r: RangesRelation): (c: RangesRelation)
    ensures (c == Equal) <==> (r == Equal)
    ensures (c == StrictlyBefore) <==> (r == StrictlyAfter)
    ensures (c == Meets) <==> (r == IsMet)
    ensures (c == Overlaps) <==> (r == IsOverlapped)
    ensures (c == Starts) <==> (r == IsStarted)
    ensures (c == Finishes) <==> (r == IsFinished)
    ensures (c == StrictlyContains) <==> (r == IsStrictlyContained)
  {
    match r
    case StrictlyBefore => StrictlyAfter
    case StrictlyAfter => StrictlyBefore
    case Meets => IsMet
    case IsMet => Meets
    case Overlaps => IsOverlapped
    case IsOverlapped => Overlaps
    case Starts => IsStarted
    case IsStarted => Starts
    case StrictlyContains => IsStrictlyContained
    case IsStrictlyContained => StrictlyContains
    case Finishes => IsFinished
    case IsFinished => Finishes
    case Equal => Equal
  }

  /** `Intersects` fails for exactly the two strict separations. */
  lemma IntersectsExactly(r: RangesRelation)
    ensures !Intersects(r) <==> (r == StrictlyBefore || r == StrictlyAfter)
  {
  }

  /** `Disjoint` is the negation of `Intersects`, and holds for exactly the strict separations. */
  lemma DisjointExactly(r: RangesRelation)
    ensures Disjoint(r) <==> !Intersects(r)
    ensures Disjoint(r) <==> (r == StrictlyBefore || r == StrictlyAfter)
  {
  }

  /** `Contains` holds for exactly `Equal`, `StrictlyContains`, `IsFinished` and `IsStarted`. */
  lemma ContainsExactly(r: RangesRelation)
    ensures Contains(r) <==> (r == Equal || r == StrictlyContains || r == IsFinished || r == IsStarted)
  {
  }

  /** Covering the other range implies overlapping it. */
  lemma ContainsImpliesIntersects(r: RangesRelation)
    ensures Contains(r) ==> Intersects(r)
  {
  }

  /** The converse is an involution that keeps overlap and exchanges the covering direction. */
  lemma ConverseProperties(r: RangesRelation)
    ensures Converse(Converse(r)) == r
    ensures Intersects(Converse(r)) == Intersects(r)
    ensures Contains(Converse(r)) <==> (r == Equal || r == IsStrictlyContained || r == Finishes || r == Starts)
  {
  }
}
