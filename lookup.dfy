/**
 * Insertion and exact lookup on the value view. Both descend from the root:
 * left when the query lies strictly below the node on the node's axis,
 * right otherwise, stopping at a node that holds the identical entry.
 */
module Lookup {
  import opened Geometry
  import opened Trees

  /** `KDNode.equals(x, y, v)`: same point and the identical value. */
  predicate Matches<V(==)>(t: Tree<V>, v: V, x: Coord, y: Coord)
    requires t.Node?
    ensures Matches(t, v, x, y) <==> RootEntry(t) == Entry(v, x, y)
  {
    t.x == x && t.y == y && t.val == v
  }

  /**
   * The private recursive `insert`: `depth` is threaded as a parameter. A new
   * leaf gets that depth; a node already holding (v, x, y) stops the descent.
   */
  function Insert<V(==)>(t: Tree<V>, v: V, x: Coord, y: Coord, depth: int): (r: Tree<V>)
    ensures r.Node?
    ensures t.Node? ==> r.val == t.val && r.x == t.x && r.y == t.y && r.depth == t.depth
  {
    match t
    case Nil => Node(v, x, y, depth, Nil, Nil)
    case Node(tv, tx, ty, td, l, rt) =>
      if Matches(t, v, x, y) then t
      else if AxisCoord(depth, x, y) < AxisCoord(depth, tx, ty) then
        Node(tv, tx, ty, td, Insert(l, v, x, y, depth + 1), rt)
      else
        Node(tv, tx, ty, td, l, Insert(rt, v, x, y, depth + 1))
  }

  /**
   * The private recursive `exists`: the same descent, reading each node's own
   * depth. A successful lookup has reached a node that holds the entry.
   */
  function Exists<V(==)>(t: Tree<V>, v: V, x: Coord, y: Coord): (b: bool)
    ensures b ==> Entry(v, x, y) in Entries(t)
  {
    match t
    case Nil => false
    case Node(_, tx, ty, td, l, rt) =>
      if Matches(t, v, x, y) then true
      else if AxisCoord(td, x, y) < AxisCoord(td, tx, ty) then Exists(l, v, x, y)
      else Exists(rt, v, x, y)
  }

  /** On a tree that keeps the splitting-axis invariant, lookup finds exactly the stored entries. */
  lemma {:induction false} ExistsIffStored<V>(t: Tree<V>, v: V, x: Coord, y: Coord)
    requires Ordered(t)
    ensures Exists(t, v, x, y) <==> Entry(v, x, y) in Entries(t)
  {
    match t
    case Nil =>
    case Node(tv, tx, ty, d, l, rt) =>
      var e := Entry(v, x, y);
      if !Matches(t, v, x, y) {
        if AxisCoord(d, x, y) < AxisCoord(d, tx, ty) {
          ExistsIffStored(l, v, x, y);
          if e in Entries(rt) { AtLeastHolds(rt, d, AxisCoord(d, tx, ty), e); }
        } else {
          ExistsIffStored(rt, v, x, y);
          if e in Entries(l) { BelowHolds(l, d, AxisCoord(d, tx, ty), e); }
        }
      }
  }

  /** Inserting into a depth-consistent tree keeps depth consistency; the new leaf gets its parent's depth + 1. */
  lemma {:induction false} InsertKeepsDepths<V>(t: Tree<V>, v: V, x: Coord, y: Coord, d: int)
    requires Depths(t, d)
    ensures Depths(Insert(t, v, x, y, d), d)
  {
    match t
    case Nil =>
    case Node(_, _, _, _, l, rt) =>
      InsertKeepsDepths(l, v, x, y, d + 1);
      InsertKeepsDepths(rt, v, x, y, d + 1);
  }

  /** A descent that meets a node already holding (v, x, y) leaves the tree unchanged. */
  lemma {:induction false} InsertExistingIsNoop<V>(t: Tree<V>, v: V, x: Coord, y: Coord, d: int)
    requires Depths(t, d) && Exists(t, v, x, y)
    ensures Insert(t, v, x, y, d) == t
  {
    if !Matches(t, v, x, y) {
      if AxisCoord(d, x, y) < AxisCoord(d, t.x, t.y) {
        InsertExistingIsNoop(t.left, v, x, y, d + 1);
      } else {
        InsertExistingIsNoop(t.right, v, x, y, d + 1);
      }
    }
  }

  /** Otherwise insertion adds exactly one copy of (v, x, y). */
  lemma {:induction false} InsertAddsEntry<V>(t: Tree<V>, v: V, x: Coord, y: Coord, d: int)
    requires Depths(t, d) && !Exists(t, v, x, y)
    ensures Entries(Insert(t, v, x, y, d)) == Entries(t) + multiset{Entry(v, x, y)}
  {
    match t
    case Nil =>
    case Node(tv, tx, ty, td, l, rt) =>
      var here, added := multiset{Entry(tv, tx, ty)}, multiset{Entry(v, x, y)};
      assert !Matches(t, v, x, y);
      if AxisCoord(d, x, y) < AxisCoord(d, tx, ty) {
        var l' := Insert(l, v, x, y, d + 1);
        assert Insert(t, v, x, y, d) == Node(tv, tx, ty, td, l', rt);
        InsertAddsEntry(l, v, x, y, d + 1);
        MultisetShuffle(here, Entries(l), Entries(rt), added);
      } else {
        var rt' := Insert(rt, v, x, y, d + 1);
        assert Insert(t, v, x, y, d) == Node(tv, tx, ty, td, l, rt');
        InsertAddsEntry(rt, v, x, y, d + 1);
        MultisetShuffle(here, Entries(l), Entries(rt), added);
      }
  }

  /** Insertion of a point strictly below `c` keeps a subtree strictly below `c`. */
  lemma {:induction false} InsertKeepsBelow<V>(t: Tree<V>, v: V, x: Coord, y: Coord, d: int, axis: int, c: int)
    requires Below(t, axis, c) && AxisCoord(axis, x, y) < c
    ensures Below(Insert(t, v, x, y, d), axis, c)
  {
    match t
    case Nil =>
    case Node(tv, tx, ty, td, l, rt) =>
      InsertKeepsBelow(l, v, x, y, d + 1, axis, c);
      InsertKeepsBelow(rt, v, x, y, d + 1, axis, c);
  }
  /** Insertion of a point at or above `c` keeps a subtree at or above `c`. */
  lemma {:induction false} InsertKeepsAtLeast<V>(t: Tree<V>, v: V, x: Coord, y: Coord, d: int, axis: int, c: int)
    requires AtLeast(t, axis, c) && c <= AxisCoord(axis, x, y)
    ensures AtLeast(Insert(t, v, x, y, d), axis, c)
  {
    match t
    case Nil =>
    case Node(tv, tx, ty, td, l, rt) =>
      InsertKeepsAtLeast(l, v, x, y, d + 1, axis, c);
      InsertKeepsAtLeast(rt, v, x, y, d + 1, axis, c);
  }
  /** Insertion keeps the splitting-axis invariant. */
  lemma {:induction false} InsertKeepsOrdered<V>(t: Tree<V>, v: V, x: Coord, y: Coord, d: int)
    requires Ordered(t) && Depths(t, d)
    ensures Ordered(Insert(t, v, x, y, d))
  {
    match t
    case Nil =>
    case Node(tv, tx, ty, td, l, rt) =>
      if !Matches(t, v, x, y) {
        var c := AxisCoord(d, tx, ty);
        if AxisCoord(d, x, y) < c {
          InsertKeepsOrdered(l, v, x, y, d + 1);
          InsertKeepsBelow(l, v, x, y, d + 1, d, c);
        } else {
          InsertKeepsOrdered(rt, v, x, y, d + 1);
          InsertKeepsAtLeast(rt, v, x, y, d + 1, d, c);
        }
      }
  }

  /** Round trip: right after inserting (v, x, y), looking it up succeeds. */
  lemma {:induction false} InsertThenExists<V>(t: Tree<V>, v: V, x: Coord, y: Coord, d: int)
    requires Depths(t, d)
    ensures Exists(Insert(t, v, x, y, d), v, x, y)
  {
    match t
    case Nil =>
    case Node(tv, tx, ty, td, l, rt) =>
      if !Matches(t, v, x, y) {
        if AxisCoord(d, x, y) < AxisCoord(d, tx, ty) {
          InsertThenExists(l, v, x, y, d + 1);
        } else {
          InsertThenExists(rt, v, x, y, d + 1);
        }
      }
  }

  /** Inserting the same entry twice is the same as inserting it once. */
  lemma InsertIdempotent<V>(t: Tree<V>, v: V, x: Coord, y: Coord, d: int)
    requires Depths(t, d)
    ensures Insert(Insert(t, v, x, y, d), v, x, y, d) == Insert(t, v, x, y, d)
  {
    var t1 := Insert(t, v, x, y, d);
    InsertKeepsDepths(t, v, x, y, d);
    InsertThenExists(t, v, x, y, d);
    InsertExistingIsNoop(t1, v, x, y, d);
  }
}
