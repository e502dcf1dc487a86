/**
 * The tree object: `KDTree` holds the root node, null for an empty tree, and
 * forwards each public operation to the recursive helpers on nodes.
 *
 * A valid tree owns the nodes below its root, and its value view keeps the
 * two invariants every operation preserves: the splitting-axis invariant
 * that `validateTree` checks, and the root at depth 0 with each child one
 * deeper than its parent.
 */
module KDTrees {
  import opened Geometry
  import opened Trees
  import opened KDNodes
  import opened NodeLists
  import Lookup
  import Extremes
  import Deletion
  import RangeQuery
  import TreeOps
  import Building
  import Traversal

  class KDTree<V(==)> {
    var root: KDNode?<V>

    ghost var Repr: set<KDNode<V>>
    ghost var Model: Tree<V>

    ghost predicate Valid()
      reads this, Repr
    {
      (root == null ==> Repr == {}) &&
      (root != null ==> root in Repr && root.Repr == Repr && root.Valid()) &&
      Model == ModelOf(root) &&
      Ordered(Model) && Depths(Model, 0)
    }

    /** The empty tree. */
    constructor ()
      ensures Valid() && Model == Nil && Repr == {}
    {
      root := null;
      Repr := {};
      Model := Nil;
    }

    /**
     * `insert(actor, x, y)`: `None` stands for a null `actor`, which leaves
     * the tree alone; otherwise the entry is placed into the value view as
     * `Lookup.Insert` from depth 0 describes.
     */
    method Insert(actor: Option<V>, x: Coord, y: Coord)
      requires Valid()
      modifies this, Repr
      ensures Valid()
      ensures actor.None? ==> Model == old(Model)
      ensures actor.Some? ==> Model == Lookup.Insert(old(Model), actor.value, x, y, 0)
      ensures old(Repr) <= Repr && fresh(Repr - old(Repr))
    {
      if actor.None? {
        return;
      }
      Lookup.InsertKeepsOrdered(Model, actor.value, x, y, 0);
      Lookup.InsertKeepsDepths(Model, actor.value, x, y, 0);
      if root == null {
        root := new KDNode(actor.value, x, y, 0);
      } else {
        var r := TreeOps.InsertAt(root, actor.value, x, y, 0);
      }
      Repr := root.Repr;
      Model := root.Model;
    }

    /** `exists(actor, x, y)`: whether the tree holds the entry. */
    method Exists(actor: V, x: Coord, y: Coord) returns (b: bool)
      requires Valid()
      ensures b <==> Entry(actor, x, y) in Entries(Model)
    {
      b := TreeOps.ExistsFrom(root, actor, x, y);
      Lookup.ExistsIffStored(Model, actor, x, y);
    }

    /**
     * `delete(actor, x, y)`: the value view becomes `Deletion.PublicDelete`
     * of the old one; the result of the recursion is discarded, so the root
     * node itself is never unlinked.
     */
    method Delete(actor: V, x: Coord, y: Coord)
      requires Valid()
      modifies this, Repr
      ensures Valid() && Repr <= old(Repr)
      ensures Model == Deletion.PublicDelete(old(Model), actor, x, y)
    {
      Deletion.PublicDeleteKeepsInvariants(Model, actor, x, y);
      var r := TreeOps.DeleteAt(root, actor, x, y);
      if r != null {
        Repr := root.Repr;
        Model := root.Model;
      }
    }

    /**
     * `createKDTreeFromList(list)`: relinks the nodes of `list` into a tree
     * rooted at depth 0, splitting at the median of each window as
     * `findMedian` places it, with `pick` standing for `Math.random`. The
     * tree is made of exactly the list's nodes and holds exactly their
     * entries; the list is rearranged in place.
     */
    method CreateKDTreeFromList(list: array<KDNode<V>>, pick: nat -> nat)
      requires Distinct(list[..])
      modifies this, list, Elements(list[..])`depth, Elements(list[..])`left, Elements(list[..])`right,
               Elements(list[..])`Repr, Elements(list[..])`Model
      ensures Valid()
      ensures (root == null) == (list.Length == 0)
      ensures Repr == Elements(old(list[..]))
      ensures Entries(Model) == old(EntriesOf(list[..]))
    {
      ghost var w := list[..];
      assert Building.Window(list, 0, list.Length - 1) == w;
      label before:
      var r := Building.Build(list, 0, 0, list.Length - 1, pick, Elements(w));
      EntriesOfFrame@before(w);
      RebuiltEntries(r, w);
      SetRoot(r);
    }

    /** Makes the valid subtree `r` the whole tree. */
    method SetRoot(r: KDNode?<V>)
      requires r != null ==> r.Valid()
      requires Ordered(ModelOf(r)) && Depths(ModelOf(r), 0)
      modifies this
      ensures Valid() && root == r
      ensures Repr == old(ReprOf(r)) && Model == old(ModelOf(r))
    {
      root, Repr, Model := r, ReprOf(r), ModelOf(r);
    }

    /**
     * `balance()`: rebuilds the tree from the list `convertToList` makes of
     * its nodes. The nodes and the entries stay the same. An empty tree makes
     * `convertToList` fail on its null root, so the tree must be non-empty.
     */
    method Balance(pick: nat -> nat)
      requires Valid() && root != null
      modifies this, Repr
      ensures Valid() && Repr == old(Repr)
      ensures Entries(Model) == Entries(old(Model))
    {
      var nodes := Traversal.ConvertToList(root);
      label converted:
      var list := new KDNode<V>[|nodes|](i requires 0 <= i < |nodes| => nodes[i]);
      assert list[..] == nodes;
      EntriesOfFrame@converted(nodes);
      CreateKDTreeFromList(list, pick);
    }

    /**
     * `rangeSearch(range)`: `None` stands for the `null` returned for an
     * empty tree; otherwise the search starts from the root with the bound
     * spanned by the least and greatest x and y in the tree.
     */
    method RangeSearch(range: Rect, overlaps: (Rect, Rect) -> bool, contains: (Rect, Rect) -> bool)
      returns (r: Option<set<V>>)
      requires Valid()
      ensures r == RangeQuery.RangeSearch(Model, range, overlaps, contains)
    {
      if root == null {
        return None;
      }
      var minX := TreeOps.FindMinNode(root, 0);
      var maxX := TreeOps.FindMaxNode(root, 0);
      var minY := TreeOps.FindMinNode(root, 1);
      var maxY := TreeOps.FindMaxNode(root, 1);
      var x1: int, x2: int, y1: int, y2: int := minX.x, maxX.x, minY.y, maxY.y;
      var bounds := Rect(x1, y1, x2 - x1, y2 - y1);
      assert bounds == RangeQuery.TreeBounds(Model);
      r := Traversal.RangeSearchAt(range, root, bounds, overlaps, contains);
    }

    /** `clear()`: drops every node. */
    method Clear()
      modifies this
      ensures Valid() && Model == Nil && Repr == {}
    {
      root := null;
      Repr := {};
      Model := Nil;
    }
  }

  /**
   * A tree made of exactly the nodes of a list without repetitions holds
   * exactly the entries of the list.
   */
  lemma RebuiltEntries<V>(root: KDNode?<V>, w: seq<KDNode<V>>)
    requires root != null ==> root.Valid()
    requires Distinct(w) && ReprOf(root) == Elements(w)
    ensures Entries(ModelOf(root)) == EntriesOf(w)
  {
    TreeNodes(root);
    TreeEntries(root);
    SameNodes<KDNode<V>>(NodesOf(root), w);
    EntriesOfPermuted(NodesOf(root), w);
  }
}
