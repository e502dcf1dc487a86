/**
 * The value view of a kd-tree: what a `KDNode` subtree holds once its links
 * are read as a tree. Each node carries its entry (value, x, y) and the depth
 * it was placed at, since the lookups and deletion read a node's own depth.
 */
module Trees {
  import opened Geometry

  datatype Option<T> = None | Some(value: T)

  /** An entry of the tree: a value at a point. Values are compared by identity. */
  datatype Entry<V> = Entry(val: V, x: Coord, y: Coord)

  datatype Tree<V> =
    | Nil
    | Node(val: V, x: Coord, y: Coord, depth: int, left: Tree<V>, right: Tree<V>)

  /** The entry stored at the root of a non-empty tree. */
  function RootEntry<V(==)>(t: Tree<V>): Entry<V>
    requires t.Node?
  {
    Entry(t.val, t.x, t.y)
  }

  /** The multiset of entries the tree holds, one per node. */
  function Entries<V(==)>(t: Tree<V>): multiset<Entry<V>> {
    match t
    case Nil => multiset{}
    case Node(v, x, y, _, l, r) => multiset{Entry(v, x, y)} + Entries(l) + Entries(r)
  }

  /** The set of values the tree holds. */
  function Values<V(==)>(t: Tree<V>): set<V> {
    match t
    case Nil => {}
    case Node(v, _, _, _, l, r) => {v} + Values(l) + Values(r)
  }

  lemma MultisetShuffle<T>(a: multiset<T>, b: multiset<T>, c: multiset<T>, d: multiset<T>)
    ensures a + (b + d) + c == a + b + c + d
    ensures a + b + (c + d) == a + b + c + d
  {
  }

  /** Removing one copy of an element found in the third part. */
  lemma MultisetTakeFrom<T>(m: T, e: T, a: multiset<T>, b: multiset<T>)
    requires m in b
    ensures multiset{m} + a + (b - multiset{m}) == multiset{e} + a + b - multiset{e}
  {
  }

  /** Removing one copy of an element absent from the outer parts. */
  lemma MultisetRemoveInside<T>(e: T, a: multiset<T>, b: multiset<T>, c: multiset<T>)
    requires e !in a && e !in c
    ensures a + (b - multiset{e}) + c == a + b + c - multiset{e}
    ensures a + c + (b - multiset{e}) == a + c + b - multiset{e}
  {
  }

  /** Every entry of `t` lies strictly below `c` on the axis of `depth`. */
  ghost predicate Below<V>(t: Tree<V>, depth: int, c: int) {
    match t
    case Nil => true
    case Node(_, x, y, _, l, r) => AxisCoord(depth, x, y) < c && Below(l, depth, c) && Below(r, depth, c)
  }

  /** Every entry of `t` lies at or above `c` on the axis of `depth`. */
  ghost predicate AtLeast<V>(t: Tree<V>, depth: int, c: int) {
    match t
    case Nil => true
    case Node(_, x, y, _, l, r) => c <= AxisCoord(depth, x, y) && AtLeast(l, depth, c) && AtLeast(r, depth, c)
  }

  /**
   * The splitting-axis invariant, as `validateTree` checks it: at every node of
   * depth d, every node of the left subtree is strictly below the node on the
   * axis of d, and every node of the right subtree is at or above it.
   */
  ghost predicate Ordered<V>(t: Tree<V>) {
    match t
    case Nil => true
    case Node(_, x, y, d, l, r) =>
      Below(l, d, AxisCoord(d, x, y)) &&
      AtLeast(r, d, AxisCoord(d, x, y)) &&
      Ordered(l) && Ordered(r)
  }

  lemma {:induction false} BelowHolds<V>(t: Tree<V>, d: int, c: int, e: Entry<V>)
    requires Below(t, d, c) && e in Entries(t)
    ensures AxisCoord(d, e.x, e.y) < c
  {
    match t
    case Nil =>
    case Node(_, _, _, _, l, r) =>
      if e in Entries(l) { BelowHolds(l, d, c, e); }
      else if e in Entries(r) { BelowHolds(r, d, c, e); }
  }

  lemma {:induction false} AtLeastHolds<V>(t: Tree<V>, d: int, c: int, e: Entry<V>)
    requires AtLeast(t, d, c) && e in Entries(t)
    ensures c <= AxisCoord(d, e.x, e.y)
  {
    match t
    case Nil =>
    case Node(_, _, _, _, l, r) =>
      if e in Entries(l) { AtLeastHolds(l, d, c, e); }
      else if e in Entries(r) { AtLeastHolds(r, d, c, e); }
  }

  lemma {:induction false} BelowFromEntries<V>(t: Tree<V>, d: int, c: int)
    requires forall e | e in Entries(t) :: AxisCoord(d, e.x, e.y) < c
    ensures Below(t, d, c)
  {
    match t
    case Nil =>
    case Node(v, x, y, _, l, r) =>
      assert Entry(v, x, y) in Entries(t);
      BelowFromEntries(l, d, c);
      BelowFromEntries(r, d, c);
  }

  lemma {:induction false} AtLeastFromEntries<V>(t: Tree<V>, d: int, c: int)
    requires forall e | e in Entries(t) :: c <= AxisCoord(d, e.x, e.y)
    ensures AtLeast(t, d, c)
  {
    match t
    case Nil =>
    case Node(v, x, y, _, l, r) =>
      assert Entry(v, x, y) in Entries(t);
      AtLeastFromEntries(l, d, c);
      AtLeastFromEntries(r, d, c);
  }

  lemma BelowOfFewer<V>(t: Tree<V>, t': Tree<V>, d: int, c: int)
    requires Below(t, d, c) && Entries(t') <= Entries(t)
    ensures Below(t', d, c)
  {
    forall e | e in Entries(t') ensures AxisCoord(d, e.x, e.y) < c {
      BelowHolds(t, d, c, e);
    }
    BelowFromEntries(t', d, c);
  }

  lemma AtLeastOfFewer<V>(t: Tree<V>, t': Tree<V>, d: int, c: int)
    requires AtLeast(t, d, c) && Entries(t') <= Entries(t)
    ensures AtLeast(t', d, c)
  {
    forall e | e in Entries(t') ensures c <= AxisCoord(d, e.x, e.y) {
      AtLeastHolds(t, d, c, e);
    }
    AtLeastFromEntries(t', d, c);
  }

  lemma {:induction false} BelowRaise<V>(t: Tree<V>, d: int, c: int, c': int)
    requires Below(t, d, c) && c <= c'
    ensures Below(t, d, c')
  {
    match t
    case Nil =>
    case Node(_, _, _, _, l, r) =>
      BelowRaise(l, d, c, c');
      BelowRaise(r, d, c, c');
  }

  /** Depth consistency: the root has depth `d` and each child one more than its parent. */
  predicate Depths<V(==)>(t: Tree<V>, d: int) {
    match t
    case Nil => true
    case Node(_, _, _, td, l, r) => td == d && Depths(l, d + 1) && Depths(r, d + 1)
  }
}
