/**
  Endpoints of a continuous range and the side-aware comparison between them
  (src/continuous.rs, `partial_cmp_bounds`, `reverse_bound`, `ContinuousBound::value`).

  The element type is `int`, so every comparison of two values is conclusive and the
  comparator is total: it returns an `Ordering`, never an absent result.
*/
module Bounds {
  import opened Wrappers

  /** The three-way result of a comparison. */
  datatype Ordering = Less | Equal | Greater

  /** The same comparison seen from the other operand. */
  function Reverse(o: Ordering): (r: Ordering)
    ensures (r == Less) <==> (o == Greater)
    ensures (r == Equal) <==> (o == Equal)
    ensures (r == Greater) <==> (o == Less)
  {
    match o
    case Less => Greater
    case Equal => Equal
    case Greater => Less
  }

  /** Whether an endpoint is the start or the end of its range. */
  datatype Side = Start | End

  /** One endpoint: a value that belongs to the range, a value that does not, or no limit. */
  datatype Bound = Included(value: int) | Excluded(value: int) | Unbounded

  /** Comparison of two element values. */
  function CmpValues(x: int, y: int): (o: Ordering)
    ensures (o == Less) <==> x < y
    ensures (o == Equal) <==> x == y
    ensures (o == Greater) <==> x > y
  {
    if x < y then Less else if x == y then Equal else Greater
  }

  /**
    Compares `b` (playing the role `bSide`) with `other` (playing `otherSide`).
    Unequal values decide on their own; at equal values a fixed table keyed by the two
    kinds and the two sides breaks the tie.
  */
  function CmpBounds(b: Bound, bSide: Side, other: Bound, otherSide: Side): Ordering
  {
    match b
    case Included(x) =>
      (match other
       case Included(y) => CmpValues(x, y)
       case Excluded(y) =>
         (match CmpValues(x, y)
          case Equal =>
            (match (bSide, otherSide)
             case (Start, Start) => Less
             case (End, End) => Greater
             case (Start, End) => Greater
             case (End, Start) => Less)
          case o => o)
       case Unbounded =>
         (match otherSide
          case Start => Greater
          case End => Less))
    case Excluded(x) =>
      (match other
       case Included(y) =>
         (match CmpValues(x, y)
          case Equal =>
            (match (bSide, otherSide)
             case (Start, Start) => Greater
             case (End, End) => Less
             case (Start, End) => Greater
             case (End, Start) => Less)
          case o => o)
       case Excluded(y) =>
         (match CmpValues(x, y)
          case Equal =>
            (match (bSide, otherSide)
             case (Start, Start) => Equal
             case (End, End) => Equal
             case (Start, End) => Greater
             case (End, Start) => Less)
          case o => o)
       case Unbounded =>
         (match otherSide
          case Start => Greater
          case End => Less))
    case Unbounded =>
      (match other
       case Included(_) | Excluded(_) =>
         (match bSide
          case Start => Less
          case End => Greater)
       case Unbounded =>
         (match (bSide, otherSide)
          case (Start, Start) => Equal
          case (End, End) => Equal
          case (Start, End) => Less
          case (End, Start) => Greater))
  }

  /** Swaps `Included` and `Excluded`, keeping the value; `Unbounded` stays as it is. */
  function ReverseBound(b: Bound): (r: Bound)
    ensures r.Unbounded? <==> b.Unbounded?
    ensures !b.Unbounded? ==> r.value == b.value && r.Included? == b.Excluded?
  {
    match b
    case Included(x) => Excluded(x)
    case Excluded(x) => Included(x)
    case Unbounded => Unbounded
  }

  /** Reversing twice gives the endpoint back. */
  lemma ReverseBoundInvolution(b: Bound)
    ensures ReverseBound(ReverseBound(b)) == b
  {
  }

  /** The value carried by an optional endpoint, absent for `Unbounded` and for no endpoint. */
  function BoundValue(b: Option<Bound>): (v: Option<int>)
    ensures v.Some? <==> (b.Some? && !b.value.Unbounded?)
    ensures v.Some? ==> v.value == b.value.value
  {
    match b
    case Some(Included(x)) => Some(x)
    case Some(Excluded(x)) => Some(x)
    case _ => None
  }

  // ---------------------------------------------------------------------------
  // Reference order: every (bound, side) pair is a position on an extended line.
  // An included endpoint sits on its value; an excluded start sits just after its
  // value and an excluded end just before it; unbounded ends sit at the infinities.
  // ---------------------------------------------------------------------------

  datatype Position = NegInf | At(point: int, offset: int) | PosInf

  /** Where an endpoint sits, given the side it plays. */
  function Pos(b: Bound, side: Side): (p: Position)
    ensures p.At? <==> !b.Unbounded?
    ensures p.At? ==> p.point == b.value && -1 <= p.offset <= 1
  {
    match b
    case Included(x) => At(x, 0)
    case Excluded(x) => if side == Start then At(x, 1) else At(x, -1)
    case Unbounded => if side == Start then NegInf else PosInf
  }

  /** Where an element value sits. */
  function Point(x: int): Position
  {
    At(x, 0)
  }

  /** Strict lexicographic order on positions. */
  predicate PosLt(p: Position, q: Position)
  {
    match (p, q)
    case (NegInf, NegInf) => false
    case (NegInf, _) => true
    case (At(x, i), At(y, j)) => x < y || (x == y && i < j)
    case (At(_, _), PosInf) => true
    case (_, _) => false
  }

  predicate PosLe(p: Position, q: Position)
  {
    PosLt(p, q) || p == q
  }

  function PosCmp(p: Position, q: Position): Ordering
  {
    if PosLt(p, q) then Less else if p == q then Equal else Greater
  }

  /** The position order is a strict total order. */
  lemma PosOrderTotal(p: Position, q: Position, s: Position)
    ensures !PosLt(p, p)
    ensures PosLt(p, q) || p == q || PosLt(q, p)
    ensures PosLt(p, q) ==> !PosLt(q, p)
    ensures PosLt(p, q) && PosLt(q, s) ==> PosLt(p, s)
  {
  }

  /** The tie-break table of `CmpBounds` is exactly the order of positions. */
  lemma CmpBoundsByPosition(b: Bound, bSide: Side, other: Bound, otherSide: Side)
    ensures CmpBounds(b, bSide, other, otherSide) == PosCmp(Pos(b, bSide), Pos(other, otherSide))
  {
  }

  /** Swapping the operands reverses the result, in every arm of the table. */
  lemma CmpBoundsAntisymmetric(b: Bound, bSide: Side, other: Bound, otherSide: Side)
    ensures CmpBounds(other, otherSide, b, bSide) == Reverse(CmpBounds(b, bSide, other, otherSide))
  {
    CmpBoundsByPosition(b, bSide, other, otherSide);
    CmpBoundsByPosition(other, otherSide, b, bSide);
  }

  /** The comparator is transitive, as the classifier in `compare` assumes. */
  lemma CmpBoundsTransitive(b1: Bound, s1: Side, b2: Bound, s2: Side, b3: Bound, s3: Side)
    requires CmpBounds(b1, s1, b2, s2) == Less && CmpBounds(b2, s2, b3, s3) == Less
    ensures CmpBounds(b1, s1, b3, s3) == Less
  {
    CmpBoundsByPosition(b1, s1, b2, s2);
    CmpBoundsByPosition(b2, s2, b3, s3);
    CmpBoundsByPosition(b1, s1, b3, s3);
    PosOrderTotal(Pos(b1, s1), Pos(b2, s2), Pos(b3, s3));
  }

  /** When both endpoints carry different values, the value order decides. */
  lemma CmpBoundsValuesFirst(b: Bound, bSide: Side, other: Bound, otherSide: Side)
    requires !b.Unbounded? && !other.Unbounded? && b.value != other.value
    ensures CmpBounds(b, bSide, other, otherSide) == CmpValues(b.value, other.value)
  {
  }

  /** An unbounded start is below every valued endpoint, an unbounded end above it. */
  lemma CmpBoundsUnbounded(other: Bound, otherSide: Side)
    requires !other.Unbounded?
    ensures CmpBounds(Unbounded, Start, other, otherSide) == Less
    ensures CmpBounds(Unbounded, End, other, otherSide) == Greater
  {
  }

  /**
    The tie-break table at equal values: included endpoints meet whatever their sides;
    an excluded endpoint moves inward on its own side; two excluded endpoints coincide
    only on the same side.
  */
  lemma CmpBoundsTies(x: int, bSide: Side, otherSide: Side)
    ensures CmpBounds(Included(x), bSide, Included(x), otherSide) == Equal
    ensures CmpBounds(Included(x), bSide, Excluded(x), otherSide) == (if otherSide == Start then Less else Greater)
    ensures CmpBounds(Excluded(x), bSide, Included(x), otherSide) == (if bSide == Start then Greater else Less)
    ensures CmpBounds(Excluded(x), bSide, Excluded(x), otherSide) ==
              (if bSide == otherSide then Equal else if bSide == Start then Greater else Less)
  {
  }

  /**
    Reversing a valued endpoint and moving it to the other side gives the complement:
    a value lies at or after the reversed end's mirror start exactly when it does not
    lie at or before the original end, and symmetrically.
  */
  lemma ReverseBoundComplement(b: Bound, x: int)
    requires !b.Unbounded?
    ensures PosLe(Pos(ReverseBound(b), Start), Point(x)) <==> !PosLe(Point(x), Pos(b, End))
    ensures PosLe(Point(x), Pos(ReverseBound(b), End)) <==> !PosLe(Pos(b, Start), Point(x))
  {
  }
}
