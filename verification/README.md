# ranger: a verified model of the continuous-range engine

This project models the interval algebra of the `ranger` Rust crate: continuous ranges of
an ordered element type, each given by two endpoints that are included, excluded or
unbounded; the thirteen Allen relations between two such ranges; the set operations
(`union`, `intersection`, `difference`, `intersects`) that dispatch on that relation; and
the general `Range` type whose `Composite` variant is a list of ranges. The element type
is `int`, so the element order is total.

Modules, one per concern:

- `Wrappers` (`wrappers.dfy`): `Option`.
- `Bounds` (`bounds.dfy`): endpoints, the side-aware comparator `partial_cmp_bounds`
  (`CmpBounds`), `reverse_bound` and `ContinuousBound::value`. There is also a reference
  order of *positions*. An included endpoint sits on its value. An excluded start sits just
  after its value and an excluded end just before it. Unbounded ends sit at the two
  infinities. The comparator's tie-break table is proved to be exactly this order.
- `Relation` (`relation.dfy`): `RangesRelation` and its `intersects`, `disjoint` and
  `contains` predicates, plus the converse of each relation.
- `Continuous` (`continuous.dfy`): `ContinuousRange` and its operations. `compare` is
  specified against `Holds`, Allen's definition of each relation on the two spans of
  positions. `simplify_mut` is a method on `RangeCell`, a mutable slot holding one range.
  `simplify` clones into a fresh slot and simplifies there.
- `ContinuousAlgebra` (`continuous_algebra.dfy`): what the operations promise. The
  relations are exclusive and `compare` is total on non-empty ranges, so the library's final
  panic is unreachable. Exchanging the operands gives the converse relation. The set
  operations agree with membership.
- `Ranges` (`range.dfy`): the general `Range`. `composite` is a method with the library's
  loop, proved against the specification function `CompositeOf`. `union`, the defined arms
  of `simplify`, and `PartialEq` are modelled too.

## Model

| member | source | states |
|---|---|---|
| Bounds.CmpBounds | src/continuous.rs:149-209 | the comparator, defined by its body as the library's table; characterised by `CmpBoundsByPosition` and the lemmas below |
| Bounds.CmpBoundsByPosition | src/continuous.rs:149-209 | the comparator, tie-break table included, is exactly the order of endpoint positions |
| Bounds.CmpBoundsAntisymmetric | src/continuous.rs:149-209 | swapping the two endpoints (with their sides) reverses the result |
| Bounds.CmpBoundsTransitive | src/continuous.rs:149-209 | `Less` is transitive, as the relation chain in `compare` relies on |
| Bounds.CmpBoundsValuesFirst | src/continuous.rs:149-209 | two valued endpoints with different values compare as their values |
| Bounds.CmpBoundsUnbounded | src/continuous.rs:149-209 | an unbounded start is below, an unbounded end above, every valued endpoint |
| Bounds.CmpBoundsTies | src/continuous.rs:149-209 | the full table at equal values: included endpoints tie, an excluded endpoint moves inward on its side, two excluded ones tie only on the same side |
| Bounds.ReverseBound | src/continuous.rs:214-220 | swaps included and excluded, keeps the value, keeps `Unbounded` |
| Bounds.ReverseBoundInvolution | src/continuous.rs:214-220 | reversing twice gives the endpoint back |
| Bounds.ReverseBoundComplement | src/continuous.rs:214-220 | a reversed end read as a start (or a reversed start read as an end) bounds exactly the complement of the original |
| Bounds.BoundValue | src/continuous.rs:95-103 | the value is present exactly for a present, non-unbounded endpoint, and is that endpoint's value |
| Relation.Intersects | src/relation.rs:115-131 | defined by its body; characterised by `IntersectsExactly` and `ContinuousAlgebra.HoldsMeaning` |
| Relation.Disjoint | src/relation.rs:139-141 | defined by its body; characterised by `DisjointExactly` |
| Relation.Contains | src/relation.rs:150-167 | defined by its body; characterised by `ContainsExactly` and `ContinuousAlgebra.HoldsMeaning` |
| Relation.IntersectsExactly | src/relation.rs:115-131 | `intersects` fails for exactly `StrictlyBefore` and `StrictlyAfter` |
| Relation.DisjointExactly | src/relation.rs:139-141 | `disjoint` is the negation of `intersects`, i.e. exactly the two strict separations |
| Relation.ContainsExactly | src/relation.rs:150-167 | `contains` holds for exactly `Equal`, `StrictlyContains`, `IsFinished`, `IsStarted` |
| Relation.ContainsImpliesIntersects | src/relation.rs:115-167 | covering the other range implies overlapping it |
| Relation.Converse | src/relation.rs:2-106 | pairs each relation with the one its documentation draws with the roles swapped |
| Relation.ConverseProperties | src/relation.rs:2-167 | the converse is an involution, keeps `intersects`, and turns covering into being covered |
| Continuous.Contains | src/continuous.rs:423-452 | defined by its body, shape by shape; characterised by `ContainsBySpan` |
| Continuous.IsEmpty | src/continuous.rs:787-806 | defined by its body; characterised by `IsEmptyIffBoundsCross` |
| Continuous.IsFull | src/continuous.rs:809-814 | defined by its body; characterised by `ContinuousAlgebra.FullAndEmptyMembership` |
| Continuous.Intersects | src/continuous.rs:615-628 | defined by its body; characterised by `ContinuousAlgebra.IntersectsMeaning` and `ContinuousAlgebra.IntersectsSound` |
| Continuous.RangeBounds | src/continuous.rs:365-387 | endpoints are absent only for `Empty`; a single value is included at both ends |
| Continuous.StartBound | src/continuous.rs:390-403 | the start is absent only for `Empty` and unbounded exactly for the shapes open to the left |
| Continuous.EndBound | src/continuous.rs:406-419 | the end is absent only for `Empty` and unbounded exactly for the shapes open to the right |
| Continuous.ContainsBySpan | src/continuous.rs:423-452 | `contains` holds exactly for values whose position lies between the two endpoint positions |
| Continuous.IsEmptyIffBoundsCross | src/continuous.rs:787-806 | `is_empty` holds exactly for `Empty` or a start compared `Greater` than the end; an empty range holds no value |
| Continuous.MakeInclusive | src/continuous.rs:243-254 | `Single` exactly for equal ends, `Empty` exactly when inverted, and holds exactly `start <= x <= end` |
| Continuous.MakeExclusive | src/continuous.rs:260-269 | `Empty` exactly when `start >= end`, and holds exactly `start < x < end` |
| Continuous.MakeStartExclusive | src/continuous.rs:275-284 | `Empty` exactly when `start >= end`, and holds exactly `start < x <= end` |
| Continuous.MakeEndExclusive | src/continuous.rs:290-299 | `Empty` exactly when `start >= end`, and holds exactly `start <= x < end` |
| Continuous.FromBounds | src/continuous.rs:341-361 | the range built from two endpoints holds exactly the values between their positions |
| Continuous.ClassifyBounds | src/continuous.rs:654-744 | the comparison chain always yields the Allen relation that holds of the two spans, so the final panic is never reached |
| Continuous.Compare | src/continuous.rs:636-745 | no relation exactly when one operand is empty and the other not; two empty ranges are `Equal`; otherwise the relation holds of the spans |
| Continuous.TouchingEndpoints | src/continuous.rs:680-691 | `Meets` implies both spans cover more than one position (not necessarily more than one integer: `(4..5]` meets `[5..10]`) and touch at one included value |
| Continuous.Union | src/continuous.rs:455-503 | `Empty` is the identity on either side and `Full` absorbs |
| Continuous.Intersection | src/continuous.rs:506-554 | `Empty` absorbs on either side and `Full` is the identity |
| Continuous.IntersectionByRelation | src/continuous.rs:513-552 | no relation gives `Empty` |
| Continuous.IntersectionArm | src/continuous.rs:514-550 | strict separation gives `Empty`, touching gives a single value |
| Continuous.DifferenceByRelation | src/continuous.rs:564-610 | no relation gives no single-range answer |
| Continuous.DifferenceArm | src/continuous.rs:565-607 | no answer exactly for `StrictlyContains`; `a` for strict separation; `Empty` when `b` covers `a` |
| Continuous.Difference | src/continuous.rs:557-612 | as written: an `Empty` first operand yields the second operand, an `Empty` second operand yields `Empty` |
| Continuous.DifferenceCorrected | src/continuous.rs:557-612 | with the `Empty` arms corrected: `Empty` minus anything is `Empty`, `a` minus `Empty` is `a` |
| Continuous.Simplified | src/continuous.rs:747-774 | the normal form is `Empty` exactly for an empty range, holds the same values, turns `[v..v]` into `Single(v)`, and leaves the unbounded and single shapes alone |
| Continuous.RangeCell.SimplifyMut | src/continuous.rs:747-774 | rewrites the held range into `Simplified` of the old one, in place, keeping its values |
| Continuous.Simplify | src/continuous.rs:777-784 | the copy is the normal form of the input, `Empty` exactly when the input is empty, with the same values |
| ContinuousAlgebra.HoldsUnique | src/continuous.rs:661-736 | at most one relation holds of two proper spans: the tests of the chain are exclusive |
| ContinuousAlgebra.HoldsConverse | src/relation.rs:2-106 | swapping the spans turns each relation into its converse |
| ContinuousAlgebra.NonEmptySpan | src/continuous.rs:787-806 | a non-empty range has its start position at or before its end position |
| ContinuousAlgebra.CompareTotal | src/continuous.rs:636-745 | two non-empty ranges always get a relation, the unique one that holds |
| ContinuousAlgebra.CompareConverse | src/continuous.rs:636-745 | `compare(b, a)` is the converse of `compare(a, b)`, and absent together with it |
| ContinuousAlgebra.HoldsMeaning | src/relation.rs:115-167 | on spans, `intersects` means sharing a position and `contains` means enclosing the other span |
| ContinuousAlgebra.RelationMeaning | src/relation.rs:115-167 | for non-empty ranges, `compare(a, b).intersects()` and `.contains()` mean the same as on their spans |
| ContinuousAlgebra.ContainsAgreesWithCompare | src/continuous.rs:423-452 | `contains(x)` holds exactly when the range's relation to the single value `x` is a covering one |
| ContinuousAlgebra.MeetsShape | src/continuous.rs:680-686 | a `Meets` result touches at an included value that starts the other range |
| ContinuousAlgebra.IntersectsMeaning | src/continuous.rs:615-628 | `intersects` holds exactly for two non-empty ranges whose spans share a position |
| ContinuousAlgebra.IntersectsSound | src/continuous.rs:615-628 | a shared value implies `intersects`; two empty ranges never intersect |
| ContinuousAlgebra.SpanUnion | src/continuous.rs:463-500 | for each relation, the envelope chosen by `union` covers exactly the two spans |
| ContinuousAlgebra.SpanIntersection | src/continuous.rs:514-550 | for each relation, the span chosen by `intersection` is exactly the common part |
| ContinuousAlgebra.SpanDifference | src/continuous.rs:565-607 | for each relation, the trimmed span chosen by `difference` is exactly the part of `a` outside `b` |
| ContinuousAlgebra.UnionMembership | src/continuous.rs:455-503 | a `Some` union holds exactly the values of either operand |
| ContinuousAlgebra.UnionNone | src/continuous.rs:455-503 | past the shortcuts, `union` is `None` exactly for strict separation or exactly one empty operand |
| ContinuousAlgebra.UnionHalfOpenTouching | src/continuous.rs:455-503 | `[1..5)` and `[5..10]` compare `StrictlyBefore`, so their union is `None` |
| ContinuousAlgebra.IntersectionArmMembership | src/continuous.rs:514-550 | every arm of `intersection` holds exactly the common values, under its relation |
| ContinuousAlgebra.IntersectionMembership | src/continuous.rs:506-554 | the intersection holds exactly the values of both operands, for all inputs |
| ContinuousAlgebra.IntersectionCases | src/continuous.rs:506-554 | strict separation or no relation gives `Empty`; touching gives the single touching value |
| ContinuousAlgebra.DifferenceCases | src/continuous.rs:557-612 | the relation table of `difference`: `a` when apart, `Empty` when covered, `None` exactly for `StrictlyContains` or no relation |
| ContinuousAlgebra.DifferenceArmMembership | src/continuous.rs:565-607 | every answering arm of `difference` holds exactly the values of `a` outside `b` |
| ContinuousAlgebra.DifferenceByRelationMembership | src/continuous.rs:564-610 | past the `Empty` arms, a `Some` difference holds exactly the values of `a` outside `b` |
| ContinuousAlgebra.DifferenceMembership | src/continuous.rs:557-612 | as written, `difference` is sound whenever neither operand is `Empty` |
| ContinuousAlgebra.DifferenceEmptyArmsUnsound | src/continuous.rs:562-563 | as written, `Empty - Full` is `Full` and `Full - Empty` is `Empty` |
| ContinuousAlgebra.DifferenceCorrectedMembership | src/continuous.rs:557-612 | with the corrected arms, every `Some` difference holds exactly the values of `a` outside `b` |
| ContinuousAlgebra.StartEndAreRangeBounds | src/continuous.rs:365-419 | `start()` and `end()` are the two halves of `range_bounds()` |
| ContinuousAlgebra.BoundsRoundTrip | src/continuous.rs:341-387 | rebuilding a normalised non-empty range from its bounds gives it back |
| ContinuousAlgebra.FromBoundsRoundTrip | src/continuous.rs:341-387 | reading back the bounds of a non-`Empty` built range gives the bound pair |
| ContinuousAlgebra.SimplifyIdempotent | src/continuous.rs:747-784 | simplifying twice is simplifying once, and the result's tag agrees with `is_empty` |
| ContinuousAlgebra.FullAndEmptyMembership | src/continuous.rs:787-814 | a full range holds every value, an empty one none |
| ContinuousAlgebra.MeetsAtOneInteger | src/continuous.rs:680-686 | `(4..5]` holds only the integer 5 yet `Meets` `[5..10]`: touching needs more than one position, not more than one integer |
| ContinuousAlgebra.Scenarios | src/continuous.rs:636-745 | worked cases: a closed end holds its value and an open one does not; `[0..10]` meets `[10..20]`; an inverted operand has no relation; `[10..20] ∩ (15..100) == (15..20]`; two empty ranges are `Equal` but do not intersect |
| Ranges.Contains | src/range.rs:336-368 | defined by its body, a composite holding the values of any item; characterised by `CompositeMembership` and `RangeBounds` |
| Ranges.IsEmpty | src/range.rs:431-436 | defined by its body; characterised by `TagTests` |
| Ranges.IsFull | src/range.rs:439-444 | defined by its body; characterised by `TagTests` |
| Ranges.Eq | src/range.rs:463-484 | defined by its body; characterised by `EqIsEquality` |
| Ranges.Flattened | src/range.rs:282-294 | the list the loop of `composite` builds, defined by its body; characterised by `FlattenedMembership` and `FlattenedPlain` |
| Ranges.CompositeOf | src/range.rs:274-304 | the result of `composite`, defined by its body; characterised by `CompositeMembership` and `CompositeStaysFlat`, and computed by `MakeComposite` |
| Ranges.MakeContinuous | src/range.rs:179-188 | `Empty` exactly when inverted, otherwise `Continuous`, and holds exactly `start <= x <= end` |
| Ranges.MakeContinuousExclusive | src/range.rs:194-203 | `Empty` exactly when `start >= end`, and holds exactly `start < x < end` |
| Ranges.MakeContinuousStartExclusive | src/range.rs:209-218 | `Empty` exactly when `start >= end`, and holds exactly `start < x <= end` |
| Ranges.MakeContinuousEndExclusive | src/range.rs:224-233 | `Empty` exactly when `start >= end`, and holds exactly `start <= x < end` |
| Ranges.Piece | src/range.rs:284-293 | what one visited item contributes holds exactly that item's values |
| Ranges.MakeComposite | src/range.rs:274-304 | the loop computes `CompositeOf(items)`, which holds exactly the values of the items |
| Ranges.FlattenedMembership | src/range.rs:283-297 | the flattened list holds exactly the values of the items |
| Ranges.CompositeMembership | src/range.rs:274-304 | the composite of a list holds exactly the values of its items |
| Ranges.FlattenedPlain | src/range.rs:283-297 | flattening flat items with no `Full` yields only single-piece ranges |
| Ranges.CompositeStaysFlat | src/range.rs:274-304 | composing flat ranges yields a flat range |
| Ranges.RangeBounds | src/range.rs:307-333 | bounds are absent exactly for `Empty` and `Composite`, and otherwise delimit exactly the held values |
| Ranges.Union | src/range.rs:371-382 | `Empty` is the identity, `Full` absorbs, any other pair gives `composite([a, b])`, and the result holds exactly the values of either operand |
| Ranges.Simplify | src/range.rs:405-428 | on the defined arms, keeps the values, gives `Empty` exactly for `Empty` or an inverted `Continuous`, and otherwise leaves the range unchanged |
| Ranges.SimplifyExact | src/range.rs:405-428 | after `simplify`, the `Empty` tag means exactly that no value is held |
| Ranges.TagTests | src/range.rs:431-444 | `is_empty` and `is_full` are sound but not complete: an inverted `Continuous(5, 1)` holds nothing yet is not `Empty`, and `Composite([(..0], [0..)])` holds every value yet is not `Full` |
| Ranges.EqIsEquality | src/range.rs:463-484 | `PartialEq` is structural equality, composites compared item by item |
| Ranges.EqSoundForMembership | src/range.rs:463-484 | equal ranges hold the same values |
| Ranges.EqIsNotSetEquality | src/range.rs:463-484 | two composites with the same values in another order are not equal |

## Left out

- The element type is `int`, so the comparator is total and every `?` early exit of
  `compare` is dead. Partial orders, and the panic they can cause, are not modelled.
- Integers have gaps, but the library reasons as if the order were dense. So `intersects`
  is sound (a shared value implies it), not complete: `[0..1)` and `(0..2]` intersect
  without sharing an integer.
- `is_empty` false likewise does not promise a member: `(1..2)` is not empty yet holds no
  integer.
- `Continuous.Union` returns `None` for `[1..5)` and `[5..10]`, whose union is `[1..10]`.
  The tie-break table classifies them `StrictlyBefore`. The model follows the code.
- `Continuous.DifferenceByRelation`: also returns `None` when exactly one operand is empty
  without carrying the `Empty` tag (for example `Inclusive(5, 1)`), since `compare` has no
  relation then. This is `None` for a reason other than `b` splitting `a`.
- `Ranges.Simplify`: requires the range not to be one of the three exclusive shapes or a
  composite. The library leaves those arms unimplemented and panics on them.
- `Range::intersection`, `difference`, `overlaps` and `compare`, and the `Sub` operator,
  are unimplemented in the library. They are not part of this model.
- `Add` for `Range` is `union` and is not repeated.
- The trivial constructors (`empty`, `single`, `from`, `from_exclusive`, `to`,
  `to_exclusive`, `full`) are the datatype constructors themselves.
- `ContinuousBound`'s `new`, `bound`, `into_inner`, `unwrap` and `expect`, and the
  conversions between it and `Option<Bound>`, are wrappers around `Option`. Only `value`
  is modelled.
- The `From` conversions from standard range syntax, `Default`, `Debug` formatting, and
  `Hash` are not part of this model.
- `src/range_structs.rs`, `src/main.rs` and the example programs are not part of this model.
- Ownership and borrowing (`&self` versus `self`, clones) are not modelled. Values are
  immutable except inside `RangeCell`.

## Findings

| source | as written | input that shows it | evidently intended | confidence | as-written member | corrected member |
|---|---|---|---|---|---|---|
| src/continuous.rs:562-563 | `difference` returns the second operand when the first is `Empty`, and `Empty` when the second is `Empty` | `Empty.difference(Full)` is `Some(Full)`; `Full.difference(Empty)` is `Some(Empty)` | `Empty` minus anything is `Empty`; `a` minus `Empty` is `a` | high; not executed | ContinuousAlgebra.DifferenceEmptyArmsUnsound (on Continuous.Difference) | Continuous.DifferenceCorrected, with ContinuousAlgebra.DifferenceCorrectedMembership |
