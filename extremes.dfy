/**
 * `findMin` and `findMax`: the entry of a subtree with the least (greatest)
 * coordinate on the axis of a given depth. Where a node splits on that axis
 * only one side can hold the extreme; elsewhere both sides and the node
 * itself are compared, a later candidate replacing the current one only when
 * it is strictly better.
 */
module Extremes {
  import opened Geometry
  import opened Trees

  /** `candidate` replaces `best` when it exists and is strictly lower on the axis of `axis`. */
  function Lower<V>(candidate: Option<Entry<V>>, best: Entry<V>, axis: int): (r: Entry<V>)
    ensures r == best || (candidate.Some? && r == candidate.value)
    ensures AxisCoord(axis, r.x, r.y) <= AxisCoord(axis, best.x, best.y)
    ensures candidate.Some? ==> AxisCoord(axis, r.x, r.y) <= AxisCoord(axis, candidate.value.x, candidate.value.y)
    ensures candidate.Some? && AxisCoord(axis, candidate.value.x, candidate.value.y) == AxisCoord(axis, best.x, best.y) ==> r == best
  {
    if candidate.Some? && AxisCoord(axis, candidate.value.x, candidate.value.y) < AxisCoord(axis, best.x, best.y)
    then candidate.value else best
  }

  /** `candidate` replaces `best` when it exists and is strictly higher on the axis of `axis`. */
  function Higher<V>(candidate: Option<Entry<V>>, best: Entry<V>, axis: int): (r: Entry<V>)
    ensures r == best || (candidate.Some? && r == candidate.value)
    ensures AxisCoord(axis, best.x, best.y) <= AxisCoord(axis, r.x, r.y)
    ensures candidate.Some? ==> AxisCoord(axis, candidate.value.x, candidate.value.y) <= AxisCoord(axis, r.x, r.y)
    ensures candidate.Some? && AxisCoord(axis, candidate.value.x, candidate.value.y) == AxisCoord(axis, best.x, best.y) ==> r == best
  {
    if candidate.Some? && AxisCoord(axis, best.x, best.y) < AxisCoord(axis, candidate.value.x, candidate.value.y)
    then candidate.value else best
  }

  /** The private `findMin(current, subtree_root_depth)`; `None` stands for `null`. */
  function FindMin<V>(t: Tree<V>, axis: int): (r: Option<Entry<V>>)
    ensures r.None? <==> t.Nil?
    ensures r.Some? ==> r.value in Entries(t)
  {
    match t
    case Nil => None
    case Node(v, x, y, d, l, rt) =>
      if SameAxis(d, axis) then
        if l.Nil? then Some(Entry(v, x, y)) else FindMin(l, axis)
      else
        Some(Lower(FindMin(rt, axis), Lower(FindMin(l, axis), Entry(v, x, y), axis), axis))
  }

  /** The private `findMax(current, subtree_root_depth)`; `None` stands for `null`. */
  function FindMax<V>(t: Tree<V>, axis: int): (r: Option<Entry<V>>)
    ensures r.None? <==> t.Nil?
    ensures r.Some? ==> r.value in Entries(t)
  {
    match t
    case Nil => None
    case Node(v, x, y, d, l, rt) =>
      if SameAxis(d, axis) then
        if rt.Nil? then Some(Entry(v, x, y)) else FindMax(rt, axis)
      else
        Some(Higher(FindMax(rt, axis), Higher(FindMax(l, axis), Entry(v, x, y), axis), axis))
  }

  /** On a tree keeping the splitting-axis invariant, `findMin` returns an entry no other entry is below. */
  lemma {:induction false} FindMinIsLeast<V>(t: Tree<V>, axis: int, e: Entry<V>)
    requires Ordered(t) && e in Entries(t)
    ensures AxisCoord(axis, FindMin(t, axis).value.x, FindMin(t, axis).value.y) <= AxisCoord(axis, e.x, e.y)
  {
    match t
    case Node(v, x, y, d, l, rt) =>
      var m := FindMin(t, axis).value;
      var c := AxisCoord(d, x, y);
      if SameAxis(d, axis) {
        SameAxisCoord(d, axis, e.x, e.y);
        SameAxisCoord(d, axis, m.x, m.y);
        SameAxisCoord(d, axis, x, y);
        if l.Node? {
          BelowHolds(l, d, c, m);
          if e in Entries(l) {
            FindMinIsLeast(l, axis, e);
          } else if e in Entries(rt) {
            AtLeastHolds(rt, d, c, e);
          }
        } else if e in Entries(rt) {
          AtLeastHolds(rt, d, c, e);
        }
      } else {
        if e in Entries(l) {
          FindMinIsLeast(l, axis, e);
        } else if e in Entries(rt) {
          FindMinIsLeast(rt, axis, e);
        }
      }
  }

  /** On a tree keeping the splitting-axis invariant, `findMax` returns an entry no other entry is above. */
  lemma {:induction false} FindMaxIsGreatest<V>(t: Tree<V>, axis: int, e: Entry<V>)
    requires Ordered(t) && e in Entries(t)
    ensures AxisCoord(axis, e.x, e.y) <= AxisCoord(axis, FindMax(t, axis).value.x, FindMax(t, axis).value.y)
  {
    match t
    case Node(v, x, y, d, l, rt) =>
      var m := FindMax(t, axis).value;
      var c := AxisCoord(d, x, y);
      if SameAxis(d, axis) {
        SameAxisCoord(d, axis, e.x, e.y);
        SameAxisCoord(d, axis, m.x, m.y);
        SameAxisCoord(d, axis, x, y);
        if rt.Node? {
          AtLeastHolds(rt, d, c, m);
          if e in Entries(rt) {
            FindMaxIsGreatest(rt, axis, e);
          } else if e in Entries(l) {
            BelowHolds(l, d, c, e);
          }
        } else if e in Entries(l) {
          BelowHolds(l, d, c, e);
        }
      } else {
        if e in Entries(l) {
          FindMaxIsGreatest(l, axis, e);
        } else if e in Entries(rt) {
          FindMaxIsGreatest(rt, axis, e);
        }
      }
  }
}
