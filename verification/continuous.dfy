/**
  A single contiguous range of integers and its operations (src/continuous.rs).

  The enum itself does not forbid contradictory bounds (`Inclusive(5, 1)` can be built
  directly), so every query re-derives emptiness from the stored bounds; only the smart
  constructors `Make…` normalise.
*/
module Continuous {
  import opened Wrappers
  import opened Bounds
  import Relation

  datatype ContinuousRange =
    | Empty
    | Single(value: int)
    | Inclusive(start: int, end: int)
    | Exclusive(start: int, end: int)
    | StartExclusive(start: int, end: int)
    | EndExclusive(start: int, end: int)
    | From(start: int)
    | FromExclusive(start: int)
    | To(end: int)
    | ToExclusive(end: int)
    | Full

  // ---------------------------------------------------------------------------
  // Membership and the reference view of a range as a span of positions
  // ---------------------------------------------------------------------------

  /** Whether `x` lies in `r`, read directly off the stored bounds of each shape. */
  predicate Contains(r: ContinuousRange, x: int)
  {
    match r
    case Empty => false
    case Single(v) => v == x
    case Inclusive(s, e) => x >= s && x <= e
    case Exclusive(s, e) => x > s && x < e
    case StartExclusive(s, e) => x > s && x <= e
    case EndExclusive(s, e) => x >= s && x < e
    case From(s) => x >= s
    case FromExclusive(s) => x > s
    case To(e) => x <= e
    case ToExclusive(e) => x < e
    case Full => true
  }

  /** The two endpoints of every shape but `Empty`. */
  function RangeBounds(r: ContinuousRange): (b: Option<(Bound, Bound)>)
    ensures b.None? <==> r.Empty?
    ensures r.Single? ==> b.value.0 == b.value.1 == Included(r.value)
  {
    match r
    case Empty => None
    case Single(v) => Some((Included(v), Included(v)))
    case Inclusive(s, e) => Some((Included(s), Included(e)))
    case Exclusive(s, e) => Some((Excluded(s), Excluded(e)))
    case StartExclusive(s, e) => Some((Excluded(s), Included(e)))
    case EndExclusive(s, e) => Some((Included(s), Excluded(e)))
    case From(s) => Some((Included(s), Unbounded))
    case FromExclusive(s) => Some((Excluded(s), Unbounded))
    case To(e) => Some((Unbounded, Included(e)))
    case ToExclusive(e) => Some((Unbounded, Excluded(e)))
    case Full => Some((Unbounded, Unbounded))
  }

  /** The start endpoint, absent only for `Empty`. */
  function StartBound(r: ContinuousRange): (b: Option<Bound>)
    ensures b.None? <==> r.Empty?
    ensures b.Some? ==> (b.value.Unbounded? <==> (r.To? || r.ToExclusive? || r.Full?))
  {
    match r
    case Empty => None
    case Single(v) => Some(Included(v))
    case Inclusive(s, _) => Some(Included(s))
    case Exclusive(s, _) => Some(Excluded(s))
    case StartExclusive(s, _) => Some(Excluded(s))
    case EndExclusive(s, _) => Some(Included(s))
    case From(s) => Some(Included(s))
    case FromExclusive(s) => Some(Excluded(s))
    case To(_) | ToExclusive(_) | Full => Some(Unbounded)
  }

  /** The end endpoint, absent only for `Empty`. */
  function EndBound(r: ContinuousRange): (b: Option<Bound>)
    ensures b.None? <==> r.Empty?
    ensures b.Some? ==> (b.value.Unbounded? <==> (r.From? || r.FromExclusive? || r.Full?))
  {
    match r
    case Empty => None
    case Single(v) => Some(Included(v))
    case Inclusive(_, e) => Some(Included(e))
    case Exclusive(_, e) => Some(Excluded(e))
    case StartExclusive(_, e) => Some(Included(e))
    case EndExclusive(_, e) => Some(Excluded(e))
    case To(e) => Some(Included(e))
    case ToExclusive(e) => Some(Excluded(e))
    case From(_) | FromExclusive(_) | Full => Some(Unbounded)
  }

  /** Where the start of a non-empty-tagged range sits. */
  ghost function StartPos(r: ContinuousRange): Position
    requires !r.Empty?
  {
    Pos(StartBound(r).value, Start)
  }

  /** Where the end of a non-empty-tagged range sits. */
  ghost function EndPos(r: ContinuousRange): Position
    requires !r.Empty?
  {
    Pos(EndBound(r).value, End)
  }

  /** A range holds exactly the values whose point lies between its two endpoint positions. */
  lemma ContainsBySpan(r: ContinuousRange, x: int)
    ensures Contains(r, x) <==>
              (!r.Empty? && PosLe(StartPos(r), Point(x)) && PosLe(Point(x), EndPos(r)))
  {
  }

  // ---------------------------------------------------------------------------
  // Emptiness and fullness
  // ---------------------------------------------------------------------------

  /**
    Whether the range is empty, re-derived from the stored bounds: strict inversion for
    `Inclusive`, non-strict for the shapes with an excluded end.
  */
  predicate IsEmpty(r: ContinuousRange)
  {
    match r
    case Empty => true
    case Inclusive(s, e) => s > e
    case Exclusive(s, e) => s >= e
    case StartExclusive(s, e) => s >= e
    case EndExclusive(s, e) => s >= e
    case Single(_) | From(_) | FromExclusive(_) | To(_) | ToExclusive(_) | Full => false
  }

  /** `is_empty` agrees with the comparator: a range is empty when its start is after its end. */
  lemma IsEmptyIffBoundsCross(r: ContinuousRange)
    ensures IsEmpty(r) <==>
              (r.Empty? || CmpBounds(StartBound(r).value, Start, EndBound(r).value, End) == Greater)
    ensures IsEmpty(r) ==> forall x :: !Contains(r, x)
  {
    if !r.Empty? {
      CmpBoundsByPosition(StartBound(r).value, Start, EndBound(r).value, End);
    }
  }

  predicate IsFull(r: ContinuousRange)
  {
    r.Full?
  }

  // ---------------------------------------------------------------------------
  // Smart constructors
  // ---------------------------------------------------------------------------

  /** `[start..end]`: `Single` when both ends coincide, `Empty` when inverted. */
  function MakeInclusive(start: int, end: int): (r: ContinuousRange)
    ensures r.Single? <==> start == end
    ensures r.Empty? <==> start > end
    ensures start < end ==> r == Inclusive(start, end)
    ensures r.Single? ==> r.value == start
    ensures forall x :: Contains(r, x) <==> start <= x <= end
  {
    if start == end then Single(start)
    else if start > end then Empty
    else Inclusive(start, end)
  }

  /** `(start..end)`: `Empty` unless `start < end`. */
  function MakeExclusive(start: int, end: int): (r: ContinuousRange)
    ensures r.Empty? <==> start >= end
    ensures !r.Empty? ==> r == Exclusive(start, end)
    ensures forall x :: Contains(r, x) <==> start < x < end
  {
    if start >= end then Empty else Exclusive(start, end)
  }

  /** `(start..end]`: `Empty` unless `start < end`. */
  function MakeStartExclusive(start: int, end: int): (r: ContinuousRange)
    ensures r.Empty? <==> start >= end
    ensures !r.Empty? ==> r == StartExclusive(start, end)
    ensures forall x :: Contains(r, x) <==> start < x <= end
  {
    if start >= end then Empty else StartExclusive(start, end)
  }

  /** `[start..end)`: `Empty` unless `start < end`. */
  function MakeEndExclusive(start: int, end: int): (r: ContinuousRange)
    ensures r.Empty? <==> start >= end
    ensures !r.Empty? ==> r == EndExclusive(start, end)
    ensures forall x :: Contains(r, x) <==> start <= x < end
  {
    if start >= end then Empty else EndExclusive(start, end)
  }

  /** Builds the range with the given start and end endpoints, through the smart constructors. */
  function FromBounds(bounds: (Bound, Bound)): (r: ContinuousRange)
    ensures forall x :: Contains(r, x) <==>
              PosLe(Pos(bounds.0, Start), Point(x)) && PosLe(Point(x), Pos(bounds.1, End))
  {
    match bounds
    case (Unbounded, Unbounded) => Full
    case (Included(s), Included(e)) => MakeInclusive(s, e)
    case (Included(s), Excluded(e)) => MakeEndExclusive(s, e)
    case (Included(s), Unbounded) => From(s)
    case (Excluded(s), Included(e)) => MakeStartExclusive(s, e)
    case (Excluded(s), Excluded(e)) => MakeExclusive(s, e)
    case (Excluded(s), Unbounded) => FromExclusive(s)
    case (Unbounded, Included(e)) => To(e)
    case (Unbounded, Excluded(e)) => ToExclusive(e)
  }

  // ---------------------------------------------------------------------------
  // Relation classification
  // ---------------------------------------------------------------------------

  /**
    Allen's definition of each relation between the spans [s1, e1] and [s2, e2], with
    touching (`Meets`, `IsMet`) reserved for two ranges of more than one point.
  */
  ghost predicate Holds(rel: Relation.RangesRelation, s1: Position, e1: Position, s2: Position, e2: Position)
  {
    match rel
    case StrictlyBefore => PosLt(e1, s2)
    case StrictlyAfter => PosLt(e2, s1)
    case Meets => e1 == s2 && PosLt(s1, e1) && PosLt(s2, e2)
    case IsMet => s1 == e2 && PosLt(s1, e1) && PosLt(s2, e2)
    case Overlaps => PosLt(s1, s2) && PosLt(s2, e1) && PosLt(e1, e2)
    case IsOverlapped => PosLt(s2, s1) && PosLt(s1, e2) && PosLt(e2, e1)
    case Starts => s1 == s2 && PosLt(e1, e2)
    case IsStarted => s1 == s2 && PosLt(e2, e1)
    case StrictlyContains => PosLt(s1, s2) && PosLt(e2, e1)
    case IsStrictlyContained => PosLt(s2, s1) && PosLt(e1, e2)
    case Finishes => PosLt(s2, s1) && e1 == e2
    case IsFinished => PosLt(s1, s2) && e1 == e2
    case Equal => s1 == s2 && e1 == e2
  }

  /**
    The straight-line chain of endpoint comparisons that classifies two non-empty ranges,
    given by their endpoints. The final branch is where the library panics when the
    element order is not total; here it is proved unreachable.
  */
  function ClassifyBounds(aStart: Bound, aEnd: Bound, bStart: Bound, bEnd: Bound): (rel: Relation.RangesRelation)
    requires CmpBounds(aStart, Start, aEnd, End) != Greater
    requires CmpBounds(bStart, Start, bEnd, End) != Greater
    ensures Holds(rel, Pos(aStart, Start), Pos(aEnd, End), Pos(bStart, Start), Pos(bEnd, End))
  {
    CmpBoundsByPosition(aEnd, End, bStart, Start);
    CmpBoundsByPosition(aStart, Start, bEnd, End);
    CmpBoundsByPosition(aStart, Start, aEnd, End);
    CmpBoundsByPosition(bStart, Start, bEnd, End);
    CmpBoundsByPosition(aStart, Start, bStart, Start);
    CmpBoundsByPosition(aEnd, End, bEnd, End);
    PosOrderTotal(Pos(aStart, Start), Pos(aEnd, End), Pos(bStart, Start));
    PosOrderTotal(Pos(aEnd, End), Pos(bStart, Start), Pos(bEnd, End));
    PosOrderTotal(Pos(aStart, Start), Pos(bStart, Start), Pos(bEnd, End));
    PosOrderTotal(Pos(bStart, Start), Pos(aStart, Start), Pos(aEnd, End));
    var cmpEndStart := CmpBounds(aEnd, End, bStart, Start);
    if cmpEndStart == Less then Relation.StrictlyBefore
    else
      var cmpStartEnd := CmpBounds(aStart, Start, bEnd, End);
      if cmpStartEnd == Greater then Relation.StrictlyAfter
      else
        var selfCmp := CmpBounds(aStart, Start, aEnd, End);
        var otherCmp := CmpBounds(bStart, Start, bEnd, End);
        if cmpEndStart == Equal && selfCmp != Equal && otherCmp != Equal then Relation.Meets
        else if cmpStartEnd == Equal && selfCmp != Equal && otherCmp != Equal then Relation.IsMet
        else
          var cmpStartStart := CmpBounds(aStart, Start, bStart, Start);
          var cmpEndEnd := CmpBounds(aEnd, End, bEnd, End);
          if cmpStartStart == Less && cmpEndStart == Greater && cmpEndEnd == Less then Relation.Overlaps
          else if cmpStartStart == Greater && cmpStartEnd == Less && cmpEndEnd == Greater then Relation.IsOverlapped
          else if cmpStartStart == Equal && cmpEndEnd == Less then Relation.Starts
          else if cmpStartStart == Equal && cmpEndEnd == Greater then Relation.IsStarted
          else if cmpStartStart == Greater && cmpEndEnd == Equal then Relation.Finishes
          else if cmpStartStart == Less && cmpEndEnd == Equal then Relation.IsFinished
          else if cmpStartStart == Less && cmpEndEnd == Greater then Relation.StrictlyContains
          else if cmpStartStart == Greater && cmpEndEnd == Less then Relation.IsStrictlyContained
          else if cmpStartStart == Equal && cmpEndEnd == Equal then Relation.Equal
          else assert false; Relation.Equal
  }

  /**
    The Allen relation of `a` to `b`. Two empty ranges are `Equal`; exactly one empty
    range has no relation; otherwise the relation is the one that holds of the two spans.
  */
  function Compare(a: ContinuousRange, b: ContinuousRange): (r: Option<Relation.RangesRelation>)
    ensures r.None? <==> IsEmpty(a) != IsEmpty(b)
    ensures IsEmpty(a) && IsEmpty(b) ==> r == Some(Relation.Equal)
    ensures !IsEmpty(a) && !IsEmpty(b) ==>
              Holds(r.value, StartPos(a), EndPos(a), StartPos(b), EndPos(b))
  {
    if IsEmpty(a) then
      if IsEmpty(b) then Some(Relation.Equal) else None
    else if IsEmpty(b) then None
    else
      IsEmptyIffBoundsCross(a);
      IsEmptyIffBoundsCross(b);
      var (aStart, aEnd) := RangeBounds(a).value;
      var (bStart, bEnd) := RangeBounds(b).value;
      Some(ClassifyBounds(aStart, aEnd, bStart, bEnd))
  }

  /**
    When `a` meets `b`, both ranges span more than one point and touch at one value that
    each of them includes: the end of `a` and the start of `b` are the same `Included` bound.
  */
  lemma TouchingEndpoints(a: ContinuousRange, b: ContinuousRange)
    requires Compare(a, b) == Some(Relation.Meets) || Compare(b, a) == Some(Relation.IsMet)
    ensures !IsEmpty(a) && !IsEmpty(b)
    ensures EndBound(a).value.Included? && StartBound(b).value == EndBound(a).value
    ensures PosLt(StartPos(a), EndPos(a)) && PosLt(StartPos(b), EndPos(b))
  {
  }

  // ---------------------------------------------------------------------------
  // Set operations, each a dispatch on the relation
  // ---------------------------------------------------------------------------

  /** The single range covering both operands, or `None` when they are strictly apart. */
  function Union(a: ContinuousRange, b: ContinuousRange): (u: Option<ContinuousRange>)
    ensures a.Empty? ==> u == Some(b)
    ensures b.Empty? ==> u == Some(a)
    ensures !a.Empty? && !b.Empty? && (a.Full? || b.Full?) ==> u == Some(Full)
  {
    match (a, b)
    case (Empty, r) => Some(r)
    case (r, Empty) => Some(r)
    case (Full, _) => Some(Full)
    case (_, Full) => Some(Full)
    case _ =>
      match Compare(a, b)
      case Some(rel) =>
        (match rel
         case StrictlyBefore => None
         case StrictlyAfter => None
         case Meets => Some(FromBounds((StartBound(a).value, EndBound(b).value)))
         case IsMet => Some(FromBounds((StartBound(b).value, EndBound(a).value)))
         case Overlaps => Some(FromBounds((StartBound(a).value, EndBound(b).value)))
         case IsOverlapped => Some(FromBounds((StartBound(b).value, EndBound(a).value)))
         case Starts => Some(b)
         case IsStarted => Some(a)
         case StrictlyContains => Some(a)
         case IsStrictlyContained => Some(b)
         case Finishes => Some(b)
         case IsFinished => Some(a)
         case Equal => Some(a))
      case None => None
  }

  /** The range of values in both operands. */
  function Intersection(a: ContinuousRange, b: ContinuousRange): (i: ContinuousRange)
    ensures a.Empty? || b.Empty? ==> i == Empty
    ensures !a.Empty? && !b.Empty? && a.Full? ==> i == b
    ensures !a.Empty? && !b.Empty? && b.Full? ==> i == a
  {
    match (a, b)
    case (Empty, _) => Empty
    case (_, Empty) => Empty
    case (Full, r) => r
    case (r, Full) => r
    case _ => IntersectionByRelation(a, b)
  }

  /** The dispatch of `intersection` on the relation, once neither operand is `Empty` or `Full`. */
  function IntersectionByRelation(a: ContinuousRange, b: ContinuousRange): (i: ContinuousRange)
    requires !a.Empty? && !b.Empty?
    ensures Compare(a, b).None? ==> i == Empty
  {
    match Compare(a, b)
    case Some(rel) =>
      assert rel == Relation.Meets ==> EndBound(a).value.Included? by {
        if rel == Relation.Meets { TouchingEndpoints(a, b); }
      }
      assert rel == Relation.IsMet ==> StartBound(a).value.Included? by {
        if rel == Relation.IsMet { TouchingEndpoints(b, a); }
      }
      IntersectionArm(rel, a, b)
    case None => Empty
  }

  /**
    The arm of `intersection` chosen by the relation `rel` of `a` to `b`. A touching pair
    shares exactly its touching value, which the caller guarantees to be an included one.
  */
  function IntersectionArm(rel: Relation.RangesRelation, a: ContinuousRange, b: ContinuousRange): (i: ContinuousRange)
    requires !a.Empty? && !b.Empty?
    requires rel == Relation.Meets ==> EndBound(a).value.Included?
    requires rel == Relation.IsMet ==> StartBound(a).value.Included?
    ensures rel in {Relation.StrictlyBefore, Relation.StrictlyAfter} ==> i == Empty
    ensures rel in {Relation.Meets, Relation.IsMet} ==> i.Single?
  {
    match rel
    case StrictlyBefore => Empty
    case StrictlyAfter => Empty
    case Meets => Single(BoundValue(EndBound(a)).value)
    case IsMet => Single(BoundValue(StartBound(a)).value)
    case Overlaps => FromBounds((StartBound(b).value, EndBound(a).value))
    case IsOverlapped => FromBounds((StartBound(a).value, EndBound(b).value))
    case Starts => a
    case IsStarted => b
    case StrictlyContains => b
    case IsStrictlyContained => a
    case Finishes => a
    case IsFinished => b
    case Equal => a
  }

  /**
    The shared dispatch of `difference` once neither operand is tagged `Empty`: the part of
    `a` outside `b`, or `None` when `b` splits `a` in two (or exactly one operand is empty).
  */
  function DifferenceByRelation(a: ContinuousRange, b: ContinuousRange): (d: Option<ContinuousRange>)
    requires !a.Empty? && !b.Empty?
    ensures Compare(a, b).None? ==> d.None?
  {
    match Compare(a, b)
    case Some(rel) => DifferenceArm(rel, a, b)
    case None => None
  }

  /** The arm of `difference` chosen by the relation `rel` of `a` to `b`. */
  function DifferenceArm(rel: Relation.RangesRelation, a: ContinuousRange, b: ContinuousRange): (d: Option<ContinuousRange>)
    requires !a.Empty? && !b.Empty?
    ensures d.None? <==> rel == Relation.StrictlyContains
    ensures rel in {Relation.StrictlyBefore, Relation.StrictlyAfter} ==> d == Some(a)
    ensures rel in {Relation.Equal, Relation.IsStrictlyContained, Relation.Starts, Relation.Finishes} ==>
              d == Some(Empty)
  {
    match rel
    case StrictlyBefore => Some(a)
    case StrictlyAfter => Some(a)
    case Equal => Some(Empty)
    case IsStrictlyContained => Some(Empty)
    case StrictlyContains => None
    case Meets => Some(FromBounds((StartBound(a).value, ReverseBound(EndBound(a).value))))
    case IsMet => Some(FromBounds((ReverseBound(StartBound(a).value), EndBound(a).value)))
    case Overlaps => Some(FromBounds((StartBound(a).value, ReverseBound(StartBound(b).value))))
    case IsOverlapped => Some(FromBounds((ReverseBound(EndBound(b).value), EndBound(a).value)))
    case Starts => Some(Empty)
    case IsStarted => Some(FromBounds((ReverseBound(EndBound(b).value), EndBound(a).value)))
    case Finishes => Some(Empty)
    case IsFinished => Some(FromBounds((StartBound(a).value, ReverseBound(StartBound(b).value))))
  }

  /**
    `difference` as the library writes it: an `Empty` first operand yields the second
    operand, and an `Empty` second operand yields `Empty`.
  */
  function Difference(a: ContinuousRange, b: ContinuousRange): (d: Option<ContinuousRange>)
    ensures a.Empty? ==> d == Some(b)
    ensures !a.Empty? && b.Empty? ==> d == Some(Empty)
  {
    match (a, b)
    case (Empty, r) => Some(r)
    case (_, Empty) => Some(Empty)
    case _ => DifferenceByRelation(a, b)
  }

  /** `difference` with the two `Empty` arms the way round that set difference requires. */
  function DifferenceCorrected(a: ContinuousRange, b: ContinuousRange): (d: Option<ContinuousRange>)
    ensures a.Empty? ==> d == Some(Empty)
    ensures !a.Empty? && b.Empty? ==> d == Some(a)
  {
    match (a, b)
    case (Empty, _) => Some(Empty)
    case (r, Empty) => Some(r)
    case _ => DifferenceByRelation(a, b)
  }

  /** Whether the two ranges overlap; two empty ranges do not, although they compare `Equal`. */
  predicate Intersects(a: ContinuousRange, b: ContinuousRange)
  {
    if IsEmpty(a) && IsEmpty(b) then false
    else
      match Compare(a, b)
      case Some(rel) => Relation.Intersects(rel)
      case None => false
  }

  // ---------------------------------------------------------------------------
  // Normalisation
  // ---------------------------------------------------------------------------

  /**
    The normal form: an inverted bounded shape becomes `Empty`, `Inclusive(v, v)` becomes
    `Single(v)`, and every other range is left as it is.
  */
  function Simplified(r: ContinuousRange): (s: ContinuousRange)
    ensures s.Empty? <==> IsEmpty(r)
    ensures IsEmpty(s) == IsEmpty(r)
    ensures forall x :: Contains(s, x) == Contains(r, x)
    ensures r.Inclusive? && r.start == r.end ==> s == Single(r.start)
    ensures !(r.Inclusive? || r.Exclusive? || r.StartExclusive? || r.EndExclusive?) ==> s == r
  {
    match r
    case Inclusive(s, e) => if s == e then Single(s) else if s > e then Empty else r
    case Exclusive(s, e) => if s >= e then Empty else r
    case StartExclusive(s, e) => if s >= e then Empty else r
    case EndExclusive(s, e) => if s >= e then Empty else r
    case _ => r
  }

  /** A mutable slot holding one range, the receiver of the in-place `simplify_mut`. */
  class RangeCell {
    var range: ContinuousRange

    constructor (r: ContinuousRange)
      ensures range == r
    {
      range := r;
    }

    /** Rewrites the held range into its normal form, in place. */
    method SimplifyMut()
      modifies this
      ensures range == Simplified(old(range))
      ensures range.Empty? <==> IsEmpty(old(range))
      ensures forall x :: Contains(range, x) == Contains(old(range), x)
      ensures old(range).Empty? || old(range).Single? || old(range).From? || old(range).FromExclusive?
              || old(range).To? || old(range).ToExclusive? || old(range).Full?
              ==> range == old(range)
    {
      match range {
        case Inclusive(s, e) =>
          if s == e {
            range := Single(s);
          } else if s > e {
            range := Empty;
          }
        case Exclusive(s, e) =>
          if s >= e {
            range := Empty;
          }
        case StartExclusive(s, e) =>
          if s >= e {
            range := Empty;
          }
        case EndExclusive(s, e) =>
          if s >= e {
            range := Empty;
          }
        case _ =>
      }
    }
  }

  /** A normalised copy: the range is cloned into a fresh slot and simplified there. */
  method Simplify(r: ContinuousRange) returns (s: ContinuousRange)
    ensures s == Simplified(r)
    ensures s.Empty? <==> IsEmpty(r)
    ensures forall x :: Contains(s, x) == Contains(r, x)
  {
    var cell := new RangeCell(r);
    cell.SimplifyMut();
    s := cell.range;
  }
}
