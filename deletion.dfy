/**
 * Hibbard-style deletion on the value view. A node holding the target takes
 * over the entry of the least node, on its own axis, of its right subtree,
 * which is then deleted from there; with no right subtree the least node of
 * the left subtree is used instead and the reduced left subtree moves into
 * the right slot.
 */
module Deletion {
  import opened Geometry
  import opened Trees
  import opened Lookup
  import opened Extremes

  /** The private recursive `delete`, returning the new subtree root (`Nil` for `null`). */
  function Delete<V(==)>(t: Tree<V>, v: V, x: Coord, y: Coord): (r: Tree<V>)
    ensures r.Nil? <==> t.Nil? || (Matches(t, v, x, y) && t.left.Nil? && t.right.Nil?)
  {
    match t
    case Nil => Nil
    case Node(tv, tx, ty, d, l, rt) =>
      if Matches(t, v, x, y) then
        if rt.Node? then
          var m := FindMin(rt, d).value;
          Node(m.val, m.x, m.y, d, l, Delete(rt, m.val, m.x, m.y))
        else if l.Node? then
          var m := FindMin(l, d).value;
          Node(m.val, m.x, m.y, d, Nil, Delete(l, m.val, m.x, m.y))
        else
          Nil
      else if AxisCoord(d, x, y) < AxisCoord(d, tx, ty) then
        Node(tv, tx, ty, d, Delete(l, v, x, y), rt)
      else
        Node(tv, tx, ty, d, l, Delete(rt, v, x, y))
  }

  /**
   * The public `delete`: it discards the subtree the recursion returns, so
   * when the recursion removes the root itself (a one-node tree holding the
   * target) the root is left in place.
   */
  function PublicDelete<V(==)>(t: Tree<V>, v: V, x: Coord, y: Coord): (r: Tree<V>)
    ensures r.Nil? <==> t.Nil?
    ensures r == t || r == Delete(t, v, x, y)
    ensures !(t.Node? && Matches(t, v, x, y) && t.left.Nil? && t.right.Nil?) ==> r == Delete(t, v, x, y)
  {
    var r := Delete(t, v, x, y);
    if r.Nil? then t else r
  }

  /** When no node on the descent path holds (v, x, y) the subtree comes back unchanged. */
  lemma {:induction false} DeleteAbsentIsNoop<V>(t: Tree<V>, v: V, x: Coord, y: Coord)
    requires !Exists(t, v, x, y)
    ensures Delete(t, v, x, y) == t
  {
    match t
    case Nil =>
    case Node(tv, tx, ty, d, l, rt) =>
      if AxisCoord(d, x, y) < AxisCoord(d, tx, ty) {
        DeleteAbsentIsNoop(l, v, x, y);
      } else {
        DeleteAbsentIsNoop(rt, v, x, y);
      }
  }

  /** Deletion keeps depth consistency: a subtree moved to the right slot stays at the same level. */
  lemma {:induction false} DeleteKeepsDepths<V>(t: Tree<V>, v: V, x: Coord, y: Coord, d: int)
    requires Depths(t, d)
    ensures Depths(Delete(t, v, x, y), d)
  {
    match t
    case Nil =>
    case Node(tv, tx, ty, td, l, rt) =>
      if Matches(t, v, x, y) {
        if rt.Node? {
          var m := FindMin(rt, td).value;
          DeleteKeepsDepths(rt, m.val, m.x, m.y, d + 1);
        } else if l.Node? {
          var m := FindMin(l, td).value;
          DeleteKeepsDepths(l, m.val, m.x, m.y, d + 1);
        }
      } else if AxisCoord(td, x, y) < AxisCoord(td, tx, ty) {
        DeleteKeepsDepths(l, v, x, y, d + 1);
      } else {
        DeleteKeepsDepths(rt, v, x, y, d + 1);
      }
  }

  /** On a tree keeping the splitting-axis invariant, deletion removes exactly one copy of (v, x, y), if any. */
  lemma {:induction false} DeleteEntries<V>(t: Tree<V>, v: V, x: Coord, y: Coord)
    requires Ordered(t)
    ensures Entries(Delete(t, v, x, y)) == Entries(t) - multiset{Entry(v, x, y)}
  {
    match t
    case Nil =>
    case Node(tv, tx, ty, d, l, rt) =>
      if Matches(t, v, x, y) {
        if rt.Node? {
          var m := FindMin(rt, d).value;
          DeleteEntries(rt, m.val, m.x, m.y);
          ReplacedRootEntries(t, v, x, y, m, rt);
        } else if l.Node? {
          var m := FindMin(l, d).value;
          DeleteEntries(l, m.val, m.x, m.y);
          ReplacedRootEntries(t, v, x, y, m, l);
        }
      } else if AxisCoord(d, x, y) < AxisCoord(d, tx, ty) {
        DeleteEntries(l, v, x, y);
        DescentLeftEntries(t, v, x, y);
      } else {
        DeleteEntries(rt, v, x, y);
        DescentRightEntries(t, v, x, y);
      }
  }

  /** The step of `DeleteEntries` where the root holds the target and takes over entry `m` of subtree `s`. */
  lemma ReplacedRootEntries<V>(t: Tree<V>, v: V, x: Coord, y: Coord, m: Entry<V>, s: Tree<V>)
    requires t.Node? && Matches(t, v, x, y)
    requires if t.right.Node? then s == t.right else t.left.Node? && s == t.left
    requires m == FindMin(s, t.depth).value
    requires Entries(Delete(s, m.val, m.x, m.y)) == Entries(s) - multiset{m}
    ensures Entries(Delete(t, v, x, y)) == Entries(t) - multiset{Entry(v, x, y)}
  {
    var e := Entry(v, x, y);
    var s' := Delete(s, m.val, m.x, m.y);
    if t.right.Node? {
      assert Delete(t, v, x, y) == Node(m.val, m.x, m.y, t.depth, t.left, s');
      MultisetTakeFrom(m, e, Entries(t.left), Entries(s));
    } else {
      assert Delete(t, v, x, y) == Node(m.val, m.x, m.y, t.depth, Nil, s');
      MultisetTakeFrom(m, e, multiset{}, Entries(s));
    }
  }

  /** The step of `DeleteEntries` where the descent continues into the left subtree. */
  lemma DescentLeftEntries<V>(t: Tree<V>, v: V, x: Coord, y: Coord)
    requires t.Node? && Ordered(t) && !Matches(t, v, x, y)
    requires AxisCoord(t.depth, x, y) < AxisCoord(t.depth, t.x, t.y)
    requires Entries(Delete(t.left, v, x, y)) == Entries(t.left) - multiset{Entry(v, x, y)}
    ensures Entries(Delete(t, v, x, y)) == Entries(t) - multiset{Entry(v, x, y)}
  {
    var e, here := Entry(v, x, y), multiset{RootEntry(t)};
    var c := AxisCoord(t.depth, t.x, t.y);
    var l' := Delete(t.left, v, x, y);
    assert Delete(t, v, x, y) == Node(t.val, t.x, t.y, t.depth, l', t.right);
    if e in Entries(t.right) { AtLeastHolds(t.right, t.depth, c, e); }
    MultisetRemoveInside(e, here, Entries(t.left), Entries(t.right));
  }

  /** The step of `DeleteEntries` where the descent continues into the right subtree. */
  lemma DescentRightEntries<V>(t: Tree<V>, v: V, x: Coord, y: Coord)
    requires t.Node? && Ordered(t) && !Matches(t, v, x, y)
    requires AxisCoord(t.depth, t.x, t.y) <= AxisCoord(t.depth, x, y)
    requires Entries(Delete(t.right, v, x, y)) == Entries(t.right) - multiset{Entry(v, x, y)}
    ensures Entries(Delete(t, v, x, y)) == Entries(t) - multiset{Entry(v, x, y)}
  {
    var e, here := Entry(v, x, y), multiset{RootEntry(t)};
    var c := AxisCoord(t.depth, t.x, t.y);
    var r' := Delete(t.right, v, x, y);
    assert Delete(t, v, x, y) == Node(t.val, t.x, t.y, t.depth, t.left, r');
    if e in Entries(t.left) { BelowHolds(t.left, t.depth, c, e); }
    MultisetRemoveInside(e, here, Entries(t.right), Entries(t.left));
  }

  /** Deletion keeps the splitting-axis invariant. */
  lemma {:induction false} DeleteKeepsOrdered<V>(t: Tree<V>, v: V, x: Coord, y: Coord)
    requires Ordered(t)
    ensures Ordered(Delete(t, v, x, y))
  {
    match t
    case Nil =>
    case Node(tv, tx, ty, d, l, rt) =>
      if Matches(t, v, x, y) {
        if rt.Node? {
          var m := FindMin(rt, d).value;
          DeleteKeepsOrdered(rt, m.val, m.x, m.y);
          DeleteEntries(rt, m.val, m.x, m.y);
          ReplacedRootOrdered(t, v, x, y, m, rt);
        } else if l.Node? {
          var m := FindMin(l, d).value;
          DeleteKeepsOrdered(l, m.val, m.x, m.y);
          DeleteEntries(l, m.val, m.x, m.y);
          ReplacedRootOrdered(t, v, x, y, m, l);
        }
      } else if AxisCoord(d, x, y) < AxisCoord(d, tx, ty) {
        DeleteKeepsOrdered(l, v, x, y);
        DeleteEntries(l, v, x, y);
        DescentLeftOrdered(t, v, x, y);
      } else {
        DeleteKeepsOrdered(rt, v, x, y);
        DeleteEntries(rt, v, x, y);
        DescentRightOrdered(t, v, x, y);
      }
  }

  /** The step of `DeleteKeepsOrdered` where the descent continues into the left subtree. */
  lemma DescentLeftOrdered<V>(t: Tree<V>, v: V, x: Coord, y: Coord)
    requires t.Node? && Ordered(t) && !Matches(t, v, x, y)
    requires AxisCoord(t.depth, x, y) < AxisCoord(t.depth, t.x, t.y)
    requires Ordered(Delete(t.left, v, x, y))
    requires Entries(Delete(t.left, v, x, y)) == Entries(t.left) - multiset{Entry(v, x, y)}
    ensures Ordered(Delete(t, v, x, y))
  {
    var l' := Delete(t.left, v, x, y);
    assert Delete(t, v, x, y) == Node(t.val, t.x, t.y, t.depth, l', t.right);
    BelowOfFewer(t.left, l', t.depth, AxisCoord(t.depth, t.x, t.y));
  }

  /** The step of `DeleteKeepsOrdered` where the descent continues into the right subtree. */
  lemma DescentRightOrdered<V>(t: Tree<V>, v: V, x: Coord, y: Coord)
    requires t.Node? && Ordered(t) && !Matches(t, v, x, y)
    requires AxisCoord(t.depth, t.x, t.y) <= AxisCoord(t.depth, x, y)
    requires Ordered(Delete(t.right, v, x, y))
    requires Entries(Delete(t.right, v, x, y)) == Entries(t.right) - multiset{Entry(v, x, y)}
    ensures Ordered(Delete(t, v, x, y))
  {
    var r' := Delete(t.right, v, x, y);
    assert Delete(t, v, x, y) == Node(t.val, t.x, t.y, t.depth, t.left, r');
    AtLeastOfFewer(t.right, r', t.depth, AxisCoord(t.depth, t.x, t.y));
  }

  /**
   * The step of `DeleteKeepsOrdered` where the root takes over the least
   * entry `m` of subtree `s` on its own axis: the old left subtree lies below
   * `m` and what remains of `s` lies at or above it.
   */
  lemma ReplacedRootOrdered<V>(t: Tree<V>, v: V, x: Coord, y: Coord, m: Entry<V>, s: Tree<V>)
    requires t.Node? && Ordered(t) && Matches(t, v, x, y)
    requires if t.right.Node? then s == t.right else t.left.Node? && s == t.left
    requires m == FindMin(s, t.depth).value
    requires Ordered(Delete(s, m.val, m.x, m.y))
    requires Entries(Delete(s, m.val, m.x, m.y)) == Entries(s) - multiset{m}
    ensures Ordered(Delete(t, v, x, y))
  {
    var d := t.depth;
    var s' := Delete(s, m.val, m.x, m.y);
    var cm := AxisCoord(d, m.x, m.y);
    forall f | f in Entries(s') ensures cm <= AxisCoord(d, f.x, f.y) {
      FindMinIsLeast(s, d, f);
    }
    AtLeastFromEntries(s', d, cm);
    if t.right.Node? {
      AtLeastHolds(t.right, d, AxisCoord(d, t.x, t.y), m);
      BelowRaise(t.left, d, AxisCoord(d, t.x, t.y), cm);
      assert Delete(t, v, x, y) == Node(m.val, m.x, m.y, d, t.left, s');
    } else {
      assert Delete(t, v, x, y) == Node(m.val, m.x, m.y, d, Nil, s');
    }
  }

  /** The public `delete` keeps both invariants of a tree rooted at depth 0. */
  lemma PublicDeleteKeepsInvariants<V>(t: Tree<V>, v: V, x: Coord, y: Coord)
    requires Ordered(t) && Depths(t, 0)
    ensures Ordered(PublicDelete(t, v, x, y)) && Depths(PublicDelete(t, v, x, y), 0)
  {
    DeleteKeepsOrdered(t, v, x, y);
    DeleteKeepsDepths(t, v, x, y, 0);
  }

  /**
   * Round trip: once the only copy of (v, x, y) is deleted it can no longer be
   * found, unless it was the sole node of the tree, which the public `delete`
   * leaves in place.
   */
  lemma DeleteThenAbsent<V>(t: Tree<V>, v: V, x: Coord, y: Coord)
    requires Ordered(t) && Entries(t)[Entry(v, x, y)] <= 1
    requires !(t.Node? && Matches(t, v, x, y) && t.left.Nil? && t.right.Nil?)
    ensures Entries(PublicDelete(t, v, x, y)) == Entries(t) - multiset{Entry(v, x, y)}
    ensures !Exists(PublicDelete(t, v, x, y), v, x, y)
  {
    var r := Delete(t, v, x, y);
    DeleteEntries(t, v, x, y);
    DeleteKeepsOrdered(t, v, x, y);
    if t.Node? {
      ExistsIffStored(r, v, x, y);
    }
  }

  /** The public `delete` of the sole entry of a one-node tree leaves the tree as it was. */
  lemma SoleNodeSurvivesDelete<V>(v: V, x: Coord, y: Coord, d: int)
    ensures PublicDelete(Node(v, x, y, d, Nil, Nil), v, x, y) == Node(v, x, y, d, Nil, Nil)
    ensures Exists(PublicDelete(Node(v, x, y, d, Nil, Nil), v, x, y), v, x, y)
  {
  }
}
