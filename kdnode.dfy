/**
 * The tree node: an entry (value, x, y), the depth it sits at and its two
 * children, all updated in place by the tree's operations.
 *
 * `Repr` is the set of nodes of the subtree and `Model` its value view; a
 * valid node owns its children's disjoint footprints, so the links form a
 * tree.
 */
module KDNodes {
  import opened Geometry
  import opened Trees

  class KDNode<V(==)> {
    var depth: int
    var val: V
    var x: Coord
    var y: Coord
    var left: KDNode?<V>
    var right: KDNode?<V>

    ghost var Repr: set<KDNode<V>>
    ghost var Model: Tree<V>

    ghost predicate Valid()
      reads this, Repr
      decreases Repr
    {
      this in Repr &&
      (left != null ==>
        left in Repr && left.Repr <= Repr && this !in left.Repr && left.Valid()) &&
      (right != null ==>
        right in Repr && right.Repr <= Repr && this !in right.Repr && right.Valid()) &&
      (left != null && right != null ==> left.Repr !! right.Repr) &&
      Repr == {this} + ReprOf(left) + ReprOf(right) &&
      Model == Node(val, x, y, depth, ModelOf(left), ModelOf(right))
    }

    /** A leaf holding (v, x, y) at `depth`. */
    constructor (v: V, x: Coord, y: Coord, depth: int)
      ensures Valid() && fresh(Repr) && Repr == {this}
      ensures Model == Node(v, x, y, depth, Nil, Nil)
      ensures this.val == v && this.x == x && this.y == y && this.depth == depth
      ensures left == null && right == null
    {
      this.depth := depth;
      this.val := v;
      this.x := x;
      this.y := y;
      left := null;
      right := null;
      Repr := {this};
      Model := Node(v, x, y, depth, Nil, Nil);
    }

    /**
     * Stores the entry (v, px, py), the depth `d` and the children `l` and
     * `r`, and recomputes the footprint and the value view.
     */
    method Relink(v: V, px: Coord, py: Coord, d: int, l: KDNode?<V>, r: KDNode?<V>)
      requires l != null ==> l.Valid() && this !in l.Repr
      requires r != null ==> r.Valid() && this !in r.Repr
      requires l != null && r != null ==> l.Repr !! r.Repr
      modifies this
      ensures Valid()
      ensures val == v && x == px && y == py && depth == d && left == l && right == r
      ensures Repr == {this} + ReprOf(l) + ReprOf(r)
      ensures Model == Node(v, px, py, d, ModelOf(l), ModelOf(r))
    {
      val, x, y := v, px, py;
      Attach(d, l, r);
    }

    /**
     * Stores the depth `d` and the children `l` and `r`, as the rebuild does,
     * leaving the entry alone, and recomputes the footprint and the value view.
     */
    method Attach(d: int, l: KDNode?<V>, r: KDNode?<V>)
      requires l != null ==> l.Valid() && this !in l.Repr
      requires r != null ==> r.Valid() && this !in r.Repr
      requires l != null && r != null ==> l.Repr !! r.Repr
      modifies this`depth, this`left, this`right, this`Repr, this`Model
      ensures Valid()
      ensures depth == d && left == l && right == r
      ensures Repr == {this} + old(ReprOf(l)) + old(ReprOf(r))
      ensures Model == Node(val, x, y, d, old(ModelOf(l)), old(ModelOf(r)))
      ensures l != null ==> l.Repr == old(l.Repr) && l.Model == old(l.Model)
      ensures r != null ==> r.Repr == old(r.Repr) && r.Model == old(r.Model)
    {
      depth, left, right := d, l, r;
      Repr := {this} + ReprOf(l) + ReprOf(r);
      Model := Node(val, x, y, d, ModelOf(l), ModelOf(r));
      if l != null { StaysValid(l); }
      if r != null { StaysValid(r); }
      ValidFromParts(this);
    }

    /**
     * `compare(x, y, depth)`: the query point minus this node on the axis of
     * `depth`; negative exactly when this node lies beyond the query.
     */
    function Compare(x: Coord, y: Coord, depth: int): (r: int)
      reads this
      ensures IsInt32(r)
      ensures r < 0 <==> AxisCoord(depth, x, y) < AxisCoord(depth, this.x, this.y)
      ensures r == 0 <==> AxisCoord(depth, x, y) == AxisCoord(depth, this.x, this.y)
    {
      if depth % 2 == 0 then x - this.x else y - this.y
    }

    /** `compare(n, depth)`: this node minus `n` on the axis of `depth`; negative exactly when this lies below `n`. */
    function CompareTo(n: KDNode<V>, depth: int): (r: int)
      reads this, n
      ensures IsInt32(r)
      ensures r < 0 <==> AxisCoord(depth, x, y) < AxisCoord(depth, n.x, n.y)
      ensures r == 0 <==> AxisCoord(depth, x, y) == AxisCoord(depth, n.x, n.y)
    {
      if depth % 2 == 0 then x - n.x else y - n.y
    }

    /** `equals(x, y, v)`: this node holds exactly the entry (v, x, y). */
    predicate Equals(x: Coord, y: Coord, v: V)
      reads this
      ensures Equals(x, y, v) <==> Entry(val, this.x, this.y) == Entry(v, x, y)
    {
      this.x == x && this.y == y && val == v
    }
  }

  lemma ValidFromParts<V>(n: KDNode<V>)
    requires n.left != null ==> n.left.Valid() && n !in n.left.Repr
    requires n.right != null ==> n.right.Valid() && n !in n.right.Repr
    requires n.left != null && n.right != null ==> n.left.Repr !! n.right.Repr
    requires n.Repr == {n} + ReprOf(n.left) + ReprOf(n.right)
    requires n.Model == Node(n.val, n.x, n.y, n.depth, ModelOf(n.left), ModelOf(n.right))
    ensures n.Valid()
  {
  }

  twostate lemma StaysValid<V>(n: KDNode<V>)
    requires old(n.Valid()) && unchanged(old(n.Repr))
    ensures n.Valid() && n.Repr == old(n.Repr) && n.Model == old(n.Model)
  {
  }

  /** The entry a node holds. */
  ghost function EntryOf<V>(n: KDNode<V>): Entry<V>
    reads n`val, n`x, n`y
  {
    Entry(n.val, n.x, n.y)
  }

  /** The entries held by a list of nodes, one per position. */
  ghost function EntriesOf<V>(s: seq<KDNode<V>>): multiset<Entry<V>>
    reads s`val, s`x, s`y
    decreases |s|
  {
    if s == [] then multiset{} else EntriesOf(s[..|s| - 1]) + multiset{EntryOf(s[|s| - 1])}
  }

  /** The value view of a possibly empty subtree. */
  ghost function ModelOf<V>(n: KDNode?<V>): Tree<V>
    reads n
  {
    if n == null then Nil else n.Model
  }

  /** The nodes of a possibly empty subtree. */
  ghost function ReprOf<V>(n: KDNode?<V>): set<KDNode<V>>
    reads n
  {
    if n == null then {} else n.Repr
  }

  /** The two comparators are antisymmetric versions of each other. */
  lemma CompareToAntisymmetric<V>(a: KDNode<V>, b: KDNode<V>, depth: int)
    ensures a.CompareTo(b, depth) == -b.CompareTo(a, depth)
    ensures a.CompareTo(b, depth) == b.Compare(a.x, a.y, depth)
  {
  }

  /** Only the parity of the depth matters to either comparator. */
  lemma CompareDependsOnParity<V>(a: KDNode<V>, b: KDNode<V>, px: Coord, py: Coord, d1: int, d2: int)
    requires SameAxis(d1, d2)
    ensures a.Compare(px, py, d1) == a.Compare(px, py, d2)
    ensures a.CompareTo(b, d1) == a.CompareTo(b, d2)
  {
  }
}
