/**
 * Rectangular range search on the value view. Each recursive call carries a
 * bound that holds every entry of its subtree; the search prunes a subtree
 * whose bound misses the range, takes a subtree whose bound lies inside the
 * range as a whole, and otherwise tests the node and narrows the bound for
 * each child.
 *
 * The two libgdx rectangle tests are parameters: `overlaps(range, bound)` and
 * `contains(range, bound)`. Soundness needs only that `contains` implies
 * enclosure; completeness needs only that `overlaps` accepts every pair of
 * rectangles with a point in common.
 */
module RangeQuery {
  import opened Geometry
  import opened Trees
  import opened Extremes

  /** The values of the entries of `t` that lie in the closed `range`. */
  function ValuesIn<V(==)>(t: Tree<V>, range: Rect): set<V> {
    match t
    case Nil => {}
    case Node(v, x, y, _, l, r) =>
      (if InRect(range, x, y) then {v} else {}) + ValuesIn(l, range) + ValuesIn(r, range)
  }

  /** Every entry of `t` lies in the closed rectangle `b`. */
  ghost predicate Within<V>(t: Tree<V>, b: Rect) {
    match t
    case Nil => true
    case Node(_, x, y, _, l, r) => InRect(b, x, y) && Within(l, b) && Within(r, b)
  }

  /** The set a search result stands for: `null` adds nothing. */
  function Got<V>(o: Option<set<V>>): set<V> {
    if o.Some? then o.value else {}
  }

  /** The private recursive `rangeSearch`; `None` stands for the `null` it returns. */
  function RangeSearchFrom<V(==)>(t: Tree<V>, range: Rect, bound: Rect,
                                 overlaps: (Rect, Rect) -> bool, contains: (Rect, Rect) -> bool): (r: Option<set<V>>)
    ensures r.None? <==> t.Nil? || !overlaps(range, bound)
    ensures Got(r) <= Values(t)
  {
    match t
    case Nil => None
    case Node(v, x, y, d, l, rt) =>
      if !overlaps(range, bound) then None
      else if contains(range, bound) then Some(Values(t))
      else
        var here := if InRect(range, x, y) then {v} else {};
        var fromLeft := RangeSearchFrom(l, range, TrimRight(d, x, y, bound), overlaps, contains);
        var fromRight := RangeSearchFrom(rt, range, TrimLeft(d, x, y, bound), overlaps, contains);
        Some(here + Got(fromLeft) + Got(fromRight))
  }

  /**
   * The starting bound of the public `rangeSearch`: from the least to the
   * greatest x and from the least to the greatest y of the tree.
   */
  function TreeBounds<V(==)>(t: Tree<V>): (b: Rect)
    requires t.Node?
    ensures b.x == FindMin(t, 0).value.x && b.x + b.width == FindMax(t, 0).value.x
    ensures b.y == FindMin(t, 1).value.y && b.y + b.height == FindMax(t, 1).value.y
  {
    var x1 := FindMin(t, 0).value.x;
    var x2 := FindMax(t, 0).value.x;
    var y1 := FindMin(t, 1).value.y;
    var y2 := FindMax(t, 1).value.y;
    Rect(x1, y1, x2 - x1, y2 - y1)
  }

  /** The public `rangeSearch`: `None` for an empty tree, else a search from the root with the tree's bounds. */
  function RangeSearch<V(==)>(t: Tree<V>, range: Rect,
                             overlaps: (Rect, Rect) -> bool, contains: (Rect, Rect) -> bool): (r: Option<set<V>>)
    ensures t.Nil? ==> r.None?
    ensures t.Node? ==> (r.None? <==> !overlaps(range, TreeBounds(t)))
  {
    if t.Nil? then None else RangeSearchFrom(t, range, TreeBounds(t), overlaps, contains)
  }

  lemma {:induction false} WithinHolds<V>(t: Tree<V>, b: Rect, e: Entry<V>)
    requires Within(t, b) && e in Entries(t)
    ensures InRect(b, e.x, e.y)
  {
    match t
    case Nil =>
    case Node(v, x, y, _, l, r) =>
      if e in Entries(l) {
        WithinHolds(l, b, e);
      } else if e in Entries(r) {
        WithinHolds(r, b, e);
      }
  }

  lemma {:induction false} WithinFromEntries<V>(t: Tree<V>, b: Rect)
    requires forall e :: e in Entries(t) ==> InRect(b, e.x, e.y)
    ensures Within(t, b)
  {
    match t
    case Nil =>
    case Node(v, x, y, _, l, r) =>
      assert Entry(v, x, y) in Entries(t);
      WithinFromEntries(l, b);
      WithinFromEntries(r, b);
  }

  /** The starting bound holds every entry of the tree. */
  lemma TreeBoundsHoldAll<V>(t: Tree<V>)
    requires t.Node? && Ordered(t)
    ensures Within(t, TreeBounds(t))
  {
    forall e | e in Entries(t) ensures InRect(TreeBounds(t), e.x, e.y) {
      FindMinIsLeast(t, 0, e);
      FindMaxIsGreatest(t, 0, e);
      FindMinIsLeast(t, 1, e);
      FindMaxIsGreatest(t, 1, e);
    }
    WithinFromEntries(t, TreeBounds(t));
  }

  /** Entries strictly below a node's coordinate stay within the `trimRight` bound. */
  lemma {:induction false} WithinTrimRight<V>(t: Tree<V>, d: int, px: int, py: int, b: Rect)
    requires Within(t, b) && Below(t, d, AxisCoord(d, px, py))
    ensures Within(t, TrimRight(d, px, py, b))
  {
    match t
    case Nil =>
    case Node(_, x, y, _, l, r) =>
      TrimRightKeeps(d, px, py, b, x, y);
      WithinTrimRight(l, d, px, py, b);
      WithinTrimRight(r, d, px, py, b);
  }

  /** Entries at or above a node's coordinate stay within the `trimLeft` bound. */
  lemma {:induction false} WithinTrimLeft<V>(t: Tree<V>, d: int, px: int, py: int, b: Rect)
    requires Within(t, b) && AtLeast(t, d, AxisCoord(d, px, py))
    ensures Within(t, TrimLeft(d, px, py, b))
  {
    match t
    case Nil =>
    case Node(_, x, y, _, l, r) =>
      TrimLeftKeeps(d, px, py, b, x, y);
      WithinTrimLeft(l, d, px, py, b);
      WithinTrimLeft(r, d, px, py, b);
  }

  /** The bounds handed to the children hold every entry of the child subtrees. */
  lemma ChildBoundsHold<V>(t: Tree<V>, b: Rect)
    requires t.Node? && Ordered(t) && Within(t, b)
    ensures Within(t.left, TrimRight(t.depth, t.x, t.y, b))
    ensures Within(t.right, TrimLeft(t.depth, t.x, t.y, b))
  {
    WithinTrimRight(t.left, t.depth, t.x, t.y, b);
    WithinTrimLeft(t.right, t.depth, t.x, t.y, b);
  }

  lemma {:induction false} ValuesInAreValues<V>(t: Tree<V>, range: Rect)
    ensures ValuesIn(t, range) <= Values(t)
  {
    match t
    case Nil =>
    case Node(_, _, _, _, l, r) =>
      ValuesInAreValues(l, range);
      ValuesInAreValues(r, range);
  }

  /** A range enclosing a bound of the subtree holds all its values. */
  lemma {:induction false} EnclosedValuesIn<V>(t: Tree<V>, range: Rect, b: Rect)
    requires Within(t, b) && Encloses(range, b)
    ensures ValuesIn(t, range) == Values(t)
  {
    match t
    case Nil =>
    case Node(_, x, y, _, l, r) =>
      EnclosedPoint(range, b, x, y);
      EnclosedValuesIn(l, range, b);
      EnclosedValuesIn(r, range, b);
  }

  /** A range sharing no point with a bound of the subtree holds none of its values. */
  lemma {:induction false} ApartValuesIn<V>(t: Tree<V>, range: Rect, b: Rect)
    requires Within(t, b) && !SharePoint(range, b)
    ensures ValuesIn(t, range) == {}
  {
    match t
    case Nil =>
    case Node(_, x, y, _, l, r) =>
      if InRect(range, x, y) {
        CommonPointMeets(range, b, x, y);
      }
      ApartValuesIn(l, range, b);
      ApartValuesIn(r, range, b);
  }

  /** Soundness: every value returned has an entry in the range, when `contains` implies enclosure. */
  lemma {:induction false} RangeSearchFromSound<V>(t: Tree<V>, range: Rect, bound: Rect,
                                                  overlaps: (Rect, Rect) -> bool, contains: (Rect, Rect) -> bool)
    requires Ordered(t) && Within(t, bound)
    requires forall r, b :: contains(r, b) ==> Encloses(r, b)
    ensures Got(RangeSearchFrom(t, range, bound, overlaps, contains)) <= ValuesIn(t, range)
  {
    match t
    case Nil =>
    case Node(v, x, y, d, l, rt) =>
      if !overlaps(range, bound) {
      } else if contains(range, bound) {
        EnclosedValuesIn(t, range, bound);
      } else {
        ChildBoundsHold(t, bound);
        RangeSearchFromSound(l, range, TrimRight(d, x, y, bound), overlaps, contains);
        RangeSearchFromSound(rt, range, TrimLeft(d, x, y, bound), overlaps, contains);
      }
  }

  /** Completeness: every value with an entry in the range is returned, when `overlaps` accepts every shared point. */
  lemma {:induction false} RangeSearchFromComplete<V>(t: Tree<V>, range: Rect, bound: Rect,
                                                     overlaps: (Rect, Rect) -> bool, contains: (Rect, Rect) -> bool)
    requires Ordered(t) && Within(t, bound)
    requires forall r, b :: SharePoint(r, b) ==> overlaps(r, b)
    ensures ValuesIn(t, range) <= Got(RangeSearchFrom(t, range, bound, overlaps, contains))
  {
    match t
    case Nil =>
    case Node(v, x, y, d, l, rt) =>
      if !overlaps(range, bound) {
        ApartValuesIn(t, range, bound);
      } else if contains(range, bound) {
        ValuesInAreValues(t, range);
      } else {
        ChildBoundsHold(t, bound);
        RangeSearchFromComplete(l, range, TrimRight(d, x, y, bound), overlaps, contains);
        RangeSearchFromComplete(rt, range, TrimLeft(d, x, y, bound), overlaps, contains);
      }
  }

  /** The public `rangeSearch` returns exactly the values with an entry in the range. */
  lemma RangeSearchExact<V>(t: Tree<V>, range: Rect,
                            overlaps: (Rect, Rect) -> bool, contains: (Rect, Rect) -> bool)
    requires Ordered(t)
    requires forall r, b :: contains(r, b) ==> Encloses(r, b)
    requires forall r, b :: SharePoint(r, b) ==> overlaps(r, b)
    ensures Got(RangeSearch(t, range, overlaps, contains)) == ValuesIn(t, range)
  {
    if t.Node? {
      TreeBoundsHoldAll(t);
      RangeSearchFromSound(t, range, TreeBounds(t), overlaps, contains);
      RangeSearchFromComplete(t, range, TreeBounds(t), overlaps, contains);
    }
  }
}
