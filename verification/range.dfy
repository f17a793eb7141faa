/**
  The general range type (src/range.rs): the continuous shapes plus `Composite`, an
  unordered list of ranges whose union is the range. Only construction, membership,
  `union` and the defined arms of `simplify` are implemented by the library; the other
  operations of this type are unimplemented there and are not part of this model.
*/
module Ranges {
  import opened Wrappers
  import opened Bounds

  datatype Range =
    | Empty
    | Continuous(start: int, end: int)
    | ContinuousExclusive(start: int, end: int)
    | ContinuousStartExclusive(start: int, end: int)
    | ContinuousEndExclusive(start: int, end: int)
    | From(start: int)
    | FromExclusive(start: int)
    | To(end: int)
    | ToExclusive(end: int)
    | Full
    | Composite(items: seq<Range>)

  // ---------------------------------------------------------------------------
  // Membership
  // ---------------------------------------------------------------------------

  /**
    Whether `x` lies in `r`; a composite holds the values of any of its items. The
    composite arm spells out the quantifier of `AnyContains` rather than calling it, so
    that the recursion stays within this one predicate.
  */
  predicate Contains(r: Range, x: int)
  {
    match r
    case Empty => false
    case Continuous(s, e) => x >= s && x <= e
    case ContinuousExclusive(s, e) => x > s && x < e
    case ContinuousStartExclusive(s, e) => x > s && x <= e
    case ContinuousEndExclusive(s, e) => x >= s && x < e
    case From(s) => x >= s
    case FromExclusive(s) => x > s
    case To(e) => x <= e
    case ToExclusive(e) => x < e
    case Full => true
    case Composite(items) => exists i | 0 <= i < |items| :: Contains(items[i], x)
  }

  /** Whether some range of `items` holds `x`. */
  predicate AnyContains(items: seq<Range>, x: int)
  {
    exists i | 0 <= i < |items| :: Contains(items[i], x)
  }

  lemma AnyContainsConcat(s: seq<Range>, t: seq<Range>, x: int)
    ensures AnyContains(s + t, x) <==> AnyContains(s, x) || AnyContains(t, x)
  {
    if AnyContains(s + t, x) {
      var i :| 0 <= i < |s + t| && Contains((s + t)[i], x);
      if i >= |s| {
        assert t[i - |s|] == (s + t)[i];
      }
    }
    if AnyContains(s, x) {
      var i :| 0 <= i < |s| && Contains(s[i], x);
      assert (s + t)[i] == s[i];
    }
    if AnyContains(t, x) {
      var j :| 0 <= j < |t| && Contains(t[j], x);
      assert (s + t)[|s| + j] == t[j];
    }
  }

  // ---------------------------------------------------------------------------
  // Constructors
  // ---------------------------------------------------------------------------

  /** `[start..end]`, `Empty` when inverted; equal ends stay a two-ended range here. */
  function MakeContinuous(start: int, end: int): (r: Range)
    ensures r.Empty? <==> start > end
    ensures !r.Empty? ==> r == Continuous(start, end)
    ensures forall x :: Contains(r, x) <==> start <= x <= end
  {
    if start > end then Empty else Continuous(start, end)
  }

  /** `(start..end)`, `Empty` unless `start < end`. */
  function MakeContinuousExclusive(start: int, end: int): (r: Range)
    ensures r.Empty? <==> start >= end
    ensures !r.Empty? ==> r == ContinuousExclusive(start, end)
    ensures forall x :: Contains(r, x) <==> start < x < end
  {
    if start >= end then Empty else ContinuousExclusive(start, end)
  }

  /** `(start..end]`, `Empty` unless `start < end`. */
  function MakeContinuousStartExclusive(start: int, end: int): (r: Range)
    ensures r.Empty? <==> start >= end
    ensures !r.Empty? ==> r == ContinuousStartExclusive(start, end)
    ensures forall x :: Contains(r, x) <==> start < x <= end
  {
    if start >= end then Empty else ContinuousStartExclusive(start, end)
  }

  /** `[start..end)`, `Empty` unless `start < end`. */
  function MakeContinuousEndExclusive(start: int, end: int): (r: Range)
    ensures r.Empty? <==> start >= end
    ensures !r.Empty? ==> r == ContinuousEndExclusive(start, end)
    ensures forall x :: Contains(r, x) <==> start <= x < end
  {
    if start >= end then Empty else ContinuousEndExclusive(start, end)
  }

  // ---------------------------------------------------------------------------
  // composite
  // ---------------------------------------------------------------------------

  /** What one item adds to the flattened list: nothing, its own items, or itself. */
  function Piece(item: Range): (p: seq<Range>)
    ensures forall x :: AnyContains(p, x) <==> Contains(item, x)
  {
    match item
    case Empty => []
    case Composite(sub) => sub
    case _ =>
      assert forall x :: Contains(item, x) ==> Contains([item][0], x);
      [item]
  }

  /** The list the loop of `composite` has built after visiting all of `items`. */
  function Flattened(items: seq<Range>): seq<Range>
  {
    if |items| == 0 then []
    else Flattened(items[..|items| - 1]) + Piece(items[|items| - 1])
  }

  /**
    The result of `composite`: no item gives `Empty`, one item is returned as it is, a
    `Full` item anywhere gives `Full`, and otherwise the flattened list decides: `Empty`
    when it is empty, its only item, or a composite of it.
  */
  ghost function CompositeOf(items: seq<Range>): Range
  {
    if |items| == 0 then Empty
    else if |items| == 1 then items[0]
    else if Full in items then Full
    else
      var flat := Flattened(items);
      if |flat| == 0 then Empty
      else if |flat| == 1 then flat[0]
      else Composite(flat)
  }

  /** Builds a composite range, dropping `Empty` items and splicing composite items in. */
  method MakeComposite(items: seq<Range>) returns (r: Range)
    ensures r == CompositeOf(items)
    ensures forall x :: Contains(r, x) <==> AnyContains(items, x)
  {
    CompositeMembership(items);
    if |items| == 0 {
      return Empty;
    }
    if |items| == 1 {
      return items[0];
    }
    var newItems: seq<Range> := [];
    var i := 0;
    while i < |items|
      invariant 0 <= i <= |items|
      invariant newItems == Flattened(items[..i])
      invariant Full !in items[..i]
    {
      assert items[..i + 1][..i] == items[..i];
      match items[i] {
        case Empty =>
        case Full =>
          assert Full in items;
          return Full;
        case Composite(sub) =>
          newItems := newItems + sub;
        case _ =>
          newItems := newItems + [items[i]];
      }
      i := i + 1;
    }
    assert items[..i] == items;
    if |newItems| == 0 {
      r := Empty;
    } else if |newItems| == 1 {
      r := newItems[0];
    } else {
      r := Composite(newItems);
    }
  }

  /** Flattening keeps exactly the values of the items. */
  lemma {:induction false} FlattenedMembership(items: seq<Range>, x: int)
    ensures AnyContains(Flattened(items), x) <==> AnyContains(items, x)
    decreases |items|
  {
    if |items| > 0 {
      var init, last := items[..|items| - 1], items[|items| - 1];
      FlattenedMembership(init, x);
      AnyContainsConcat(Flattened(init), Piece(last), x);
      assert items == init + [last];
      AnyContainsConcat(init, [last], x);
      assert AnyContains([last], x) <==> Contains(last, x) by {
        if Contains(last, x) {
          assert Contains([last][0], x);
        }
      }
    }
  }

  /** A composite holds exactly the values of its items. */
  lemma CompositeMembership(items: seq<Range>)
    ensures forall x :: Contains(CompositeOf(items), x) <==> AnyContains(items, x)
  {
    forall x
      ensures Contains(CompositeOf(items), x) <==> AnyContains(items, x)
    {
      FlattenedMembership(items, x);
      if |items| == 1 {
        if Contains(items[0], x) {
          assert Contains(items[0], x);
        }
      } else if |items| > 1 && Full in items {
        var k :| 0 <= k < |items| && items[k] == Full;
        assert Contains(items[k], x);
      } else if |items| > 1 {
        var flat := Flattened(items);
        if |flat| == 1 && Contains(flat[0], x) {
          assert Contains(flat[0], x);
        }
      }
    }
  }

  /**
    A range is flat when, if composite, each of its items is a proper single-piece range:
    never `Empty`, `Full` or itself composite.
  */
  predicate Plain(r: Range)
  {
    !r.Empty? && !r.Full? && !r.Composite?
  }

  predicate Flat(r: Range)
  {
    r.Composite? ==> forall j | 0 <= j < |r.items| :: Plain(r.items[j])
  }

  lemma {:induction false} FlattenedPlain(items: seq<Range>)
    requires Full !in items
    requires forall i | 0 <= i < |items| :: Flat(items[i])
    ensures forall j | 0 <= j < |Flattened(items)| :: Plain(Flattened(items)[j])
    decreases |items|
  {
    if |items| > 0 {
      var init, last := items[..|items| - 1], items[|items| - 1];
      assert forall i | 0 <= i < |init| :: init[i] == items[i];
      FlattenedPlain(init);
    }
  }

  /** Composing flat ranges gives a flat range: one level of splicing is all it takes. */
  lemma CompositeStaysFlat(items: seq<Range>)
    requires forall i | 0 <= i < |items| :: Flat(items[i])
    ensures Flat(CompositeOf(items))
  {
    if |items| > 1 && Full !in items {
      FlattenedPlain(items);
    }
  }

  // ---------------------------------------------------------------------------
  // Queries and the remaining operations
  // ---------------------------------------------------------------------------

  /** The two endpoints of each continuous shape; absent for `Empty` and for a composite. */
  function RangeBounds(r: Range): (b: Option<(Bound, Bound)>)
    ensures b.None? <==> (r.Empty? || r.Composite?)
    ensures b.Some? ==> forall x :: Contains(r, x) <==>
              PosLe(Pos(b.value.0, Start), Point(x)) && PosLe(Point(x), Pos(b.value.1, End))
  {
    match r
    case Empty => None
    case Continuous(s, e) => Some((Included(s), Included(e)))
    case ContinuousExclusive(s, e) => Some((Excluded(s), Excluded(e)))
    case ContinuousStartExclusive(s, e) => Some((Excluded(s), Included(e)))
    case ContinuousEndExclusive(s, e) => Some((Included(s), Excluded(e)))
    case From(s) => Some((Included(s), Unbounded))
    case FromExclusive(s) => Some((Excluded(s), Unbounded))
    case To(e) => Some((Unbounded, Included(e)))
    case ToExclusive(e) => Some((Unbounded, Excluded(e)))
    case Full => Some((Unbounded, Unbounded))
    case Composite(_) => None
  }

  /** The union: `Empty` is neutral, `Full` absorbs, and anything else is composed. */
  method Union(a: Range, b: Range) returns (u: Range)
    ensures a.Empty? ==> u == b
    ensures !a.Empty? && b.Empty? ==> u == a
    ensures !a.Empty? && !b.Empty? && (a.Full? || b.Full?) ==> u == Full
    ensures !a.Empty? && !b.Empty? && !a.Full? && !b.Full? ==> u == CompositeOf([a, b])
    ensures forall x :: Contains(u, x) <==> Contains(a, x) || Contains(b, x)
  {
    if a.Empty? {
      u := b;
    } else if b.Empty? {
      u := a;
    } else if a.Full? || b.Full? {
      u := Full;
    } else {
      u := MakeComposite([a, b]);
      forall x
        ensures AnyContains([a, b], x) <==> Contains(a, x) || Contains(b, x)
      {
        assert [a, b][0] == a && [a, b][1] == b;
      }
    }
  }

  /**
    The defined arms of `simplify`: an inverted `Continuous` becomes `Empty` and every
    other allowed shape stays. The three exclusive shapes and composites are unimplemented
    in the library and panic, so they are excluded.
  */
  function Simplify(r: Range): (s: Range)
    requires !r.ContinuousExclusive? && !r.ContinuousStartExclusive?
    requires !r.ContinuousEndExclusive? && !r.Composite?
    ensures forall x :: Contains(s, x) == Contains(r, x)
    ensures s.Empty? <==> (r.Empty? || (r.Continuous? && r.start > r.end))
    ensures !s.Empty? ==> s == r
  {
    match r
    case Continuous(start, end) => if start > end then Empty else r
    case _ => r
  }

  /** After `simplify`, the `Empty` tag means exactly that no value is held. */
  lemma SimplifyExact(r: Range)
    requires !r.ContinuousExclusive? && !r.ContinuousStartExclusive?
    requires !r.ContinuousEndExclusive? && !r.Composite?
    ensures Simplify(r).Empty? <==> forall x :: !Contains(r, x)
  {
    if !Simplify(r).Empty? {
      var w := match r
        case Continuous(s, _) => s
        case From(s) => s
        case FromExclusive(s) => s + 1
        case To(e) => e
        case ToExclusive(e) => e - 1
        case _ => 0;
      assert Contains(r, w);
    }
  }

  /** Only the `Empty` tag counts as empty. */
  predicate IsEmpty(r: Range)
  {
    r.Empty?
  }

  /** Only the `Full` tag counts as full. */
  predicate IsFull(r: Range)
  {
    r.Full?
  }

  /**
    Both tests read the tag alone: they are sound but not complete, since an inverted
    `Continuous(5, 1)` holds nothing without being `Empty`, and a composite of `(..0]` and
    `[0..)` holds everything without being `Full`.
  */
  lemma TagTests(r: Range, x: int)
    ensures IsEmpty(r) ==> !Contains(r, x)
    ensures IsFull(r) ==> Contains(r, x)
    ensures !IsEmpty(Continuous(5, 1)) && !Contains(Continuous(5, 1), x)
    ensures !IsFull(Composite([To(0), From(0)])) && Contains(Composite([To(0), From(0)]), x)
  {
    assert [To(0), From(0)][0] == To(0) && [To(0), From(0)][1] == From(0);
  }

  // ---------------------------------------------------------------------------
  // Equality
  // ---------------------------------------------------------------------------

  /** Whether two ranges are of the same variant, whatever their payloads. */
  predicate SameVariant(a: Range, b: Range)
  {
    (a.Empty? && b.Empty?) || (a.Continuous? && b.Continuous?)
    || (a.ContinuousExclusive? && b.ContinuousExclusive?)
    || (a.ContinuousStartExclusive? && b.ContinuousStartExclusive?)
    || (a.ContinuousEndExclusive? && b.ContinuousEndExclusive?)
    || (a.From? && b.From?) || (a.FromExclusive? && b.FromExclusive?)
    || (a.To? && b.To?) || (a.ToExclusive? && b.ToExclusive?)
    || (a.Full? && b.Full?) || (a.Composite? && b.Composite?)
  }

  /**
    The equality of `PartialEq`: payloads compared field by field (composites item by item,
    in order), and every other pair by variant alone. It is exactly structural equality.
  */
  predicate Eq(a: Range, b: Range)
  {
    match (a, b)
    case (Continuous(l0, l1), Continuous(r0, r1)) => l0 == r0 && l1 == r1
    case (ContinuousExclusive(l0, l1), ContinuousExclusive(r0, r1)) => l0 == r0 && l1 == r1
    case (ContinuousStartExclusive(l0, l1), ContinuousStartExclusive(r0, r1)) => l0 == r0 && l1 == r1
    case (ContinuousEndExclusive(l0, l1), ContinuousEndExclusive(r0, r1)) => l0 == r0 && l1 == r1
    case (From(l0), From(r0)) => l0 == r0
    case (FromExclusive(l0), FromExclusive(r0)) => l0 == r0
    case (To(l0), To(r0)) => l0 == r0
    case (ToExclusive(l0), ToExclusive(r0)) => l0 == r0
    case (Composite(l0), Composite(r0)) =>
      |l0| == |r0| && forall i | 0 <= i < |l0| :: Eq(l0[i], r0[i])
    case _ => SameVariant(a, b)
  }

  /** `PartialEq` on ranges is structural equality, composites included. */
  lemma {:induction false} EqIsEquality(a: Range, b: Range)
    ensures Eq(a, b) <==> a == b
  {
    if a.Composite? && b.Composite? {
      var l, r := a.items, b.items;
      if |l| == |r| {
        forall i | 0 <= i < |l|
          ensures Eq(l[i], r[i]) <==> l[i] == r[i]
        {
          EqIsEquality(l[i], r[i]);
        }
        if forall i | 0 <= i < |l| :: l[i] == r[i] {
          assert l == r;
        }
      }
    }
  }

  /** Equal ranges hold the same values; the converse fails, as `Composite` is unordered. */
  lemma EqSoundForMembership(a: Range, b: Range, x: int)
    requires Eq(a, b)
    ensures Contains(a, x) == Contains(b, x)
  {
    EqIsEquality(a, b);
  }

  lemma EqIsNotSetEquality()
    ensures !Eq(Composite([From(0), To(0)]), Composite([To(0), From(0)]))
    ensures forall x :: Contains(Composite([From(0), To(0)]), x) == Contains(Composite([To(0), From(0)]), x)
  {
    assert Composite([From(0), To(0)]).items[0] != Composite([To(0), From(0)]).items[0];
    forall x
      ensures Contains(Composite([From(0), To(0)]), x) == Contains(Composite([To(0), From(0)]), x)
    {
      assert [From(0), To(0)][0] == From(0) && [From(0), To(0)][1] == To(0);
      assert [To(0), From(0)][0] == To(0) && [To(0), From(0)][1] == From(0);
    }
  }
}
