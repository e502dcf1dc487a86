/**
 * `createKDTreeFromList`: the rebuild that turns a list of existing nodes
 * into a balanced tree in place. The median node of a window on the axis of
 * the current depth becomes the subtree root; the nodes strictly below it
 * on that axis form its left subtree and the others its right subtree. No
 * node is allocated: only the depth and the child links of the listed nodes
 * are rewritten, and the list itself is reordered by `findMedian`.
 */
module Building {
  import opened Geometry
  import opened Trees
  import opened KDNodes
  import opened Selection
  import opened NodeLists

  /** The nodes of the window [left, right] of `a`. */
  ghost function Window<T>(a: array<T>, left: int, right: int): seq<T>
    requires 0 <= left <= right + 1 <= a.Length
    reads a
  {
    a[left..right + 1]
  }

  /** A valid subtree whose nodes all lie strictly below `c` on the axis of `d` has a value view below `c`. */
  lemma {:induction false} BelowFromNodes<V>(n: KDNode?<V>, d: int, c: int)
    requires n != null ==> n.Valid()
    requires forall o | o in ReprOf(n) :: AxisCoord(d, o.x, o.y) < c
    decreases ReprOf(n)
    ensures Below(ModelOf(n), d, c)
  {
    if n != null {
      BelowFromNodes(n.left, d, c);
      BelowFromNodes(n.right, d, c);
    }
  }

  /** A valid subtree whose nodes all lie at or above `c` on the axis of `d` has a value view at or above `c`. */
  lemma {:induction false} AtLeastFromNodes<V>(n: KDNode?<V>, d: int, c: int)
    requires n != null ==> n.Valid()
    requires forall o | o in ReprOf(n) :: c <= AxisCoord(d, o.x, o.y)
    decreases ReprOf(n)
    ensures AtLeast(ModelOf(n), d, c)
  {
    if n != null {
      AtLeastFromNodes(n.left, d, c);
      AtLeastFromNodes(n.right, d, c);
    }
  }

  /**
   * What the rebuild needs of the window once `findMedian` has placed the
   * median at `median`: the pieces before and after it are free of
   * repetitions, share no node and together with the median hold the
   * window's nodes.
   */
  lemma MedianSplit<V>(a: array<KDNode<V>>, w: seq<KDNode<V>>, left: int, median: int, right: int)
    requires 0 <= left <= median <= right < a.Length
    requires Distinct(w) && multiset(w) == multiset(a[left..right + 1])
    ensures Distinct(a[left..median]) && Distinct(a[median + 1..right + 1])
    ensures a[median] !in a[left..median] && a[median] !in a[median + 1..right + 1]
    ensures Elements(a[left..median]) !! Elements(a[median + 1..right + 1])
    ensures Elements(w) == Elements(a[left..median]) + {a[median]} + Elements(a[median + 1..right + 1])
  {
    var m := a[median];
    var ls, rs, w1 := a[left..median], a[median + 1..right + 1], a[left..right + 1];
    assert w1 == ls + [m] + rs;
    DistinctSplit(ls, m, rs);
    ElementsSplit(w, ls, m, rs);
  }

  /**
   * The private `createKDTreeFromList(list, depth, left, right)`: links the
   * nodes of the window [left, right] into a tree whose root sits at `depth`
   * and returns its root, null for an empty window. The tree is made of
   * exactly the window's nodes, keeps the splitting-axis invariant and gives
   * every node the depth it sits at; the array is only rearranged inside the
   * window.
   */
  method Build<V(==)>(a: array<KDNode<V>>, depth: int, left: int, right: int, pick: nat -> nat, ghost nodes: set<KDNode<V>>)
    returns (root: KDNode?<V>)
    requires 0 <= left <= right + 1 <= a.Length
    requires Distinct(Window(a, left, right)) && nodes == Elements(Window(a, left, right))
    modifies a, nodes`depth, nodes`left, nodes`right, nodes`Repr, nodes`Model
    decreases right - left, 4
    ensures (root == null) == (right < left)
    ensures root != null ==> root.Valid() && root.Repr == nodes
    ensures Ordered(ModelOf(root)) && Depths(ModelOf(root), depth)
    ensures forall k :: 0 <= k < a.Length && !(left <= k <= right) ==> a[k] == old(a[k])
  {
    if right < left {
      return null;
    }
    if left == right {
      root := a[left];
      assert Window(a, left, right) == [root];
      root.Attach(depth, null, null);
      return;
    }
    root := BuildAroundMedian(a, depth, left, right, pick, nodes);
  }

  /**
   * The `findMedian` call of the rebuild, with what it leaves for the two
   * recursive calls: the window rearranged around the median at `median`,
   * the nodes of the two pieces, and their keys below, respectively at or
   * above, the median's.
   */
  method PlaceMedian<V(==)>(a: array<KDNode<V>>, depth: int, left: int, right: int, pick: nat -> nat,
                            ghost nodes: set<KDNode<V>>) returns (median: int)
    requires 0 <= left < right < a.Length
    requires Distinct(Window(a, left, right)) && nodes == Elements(Window(a, left, right))
    modifies a
    ensures left <= median <= right
    ensures forall k :: 0 <= k < a.Length && !(left <= k <= right) ==> a[k] == old(a[k])
    ensures Distinct(a[left..median]) && Distinct(a[median + 1..right + 1])
    ensures a[median] !in a[left..median] && a[median] !in a[median + 1..right + 1]
    ensures Elements(a[left..median]) !! Elements(a[median + 1..right + 1])
    ensures nodes == Elements(a[left..median]) + {a[median]} + Elements(a[median + 1..right + 1])
    ensures forall k :: left <= k < median ==> Key(a[k], depth) < Key(a[median], depth)
    ensures forall k :: median < k <= right ==> Key(a[median], depth) <= Key(a[k], depth)
  {
    ghost var w := Window(a, left, right);
    median := FindMedian(a, left, right, depth, pick);
    PermutedWindow(old(a[..]), a[..], left, right);
    assert w == old(a[..])[left..right + 1] && a[left..right + 1] == a[..][left..right + 1];
    MedianSplit(a, w, left, median, right);
  }

  /**
   * The branch of the rebuild for a window of two or more nodes: the median
   * node on the axis of `depth` takes the window's nodes strictly below it as
   * its left subtree and the rest as its right subtree.
   */
  method BuildAroundMedian<V(==)>(a: array<KDNode<V>>, depth: int, left: int, right: int, pick: nat -> nat,
                                  ghost nodes: set<KDNode<V>>) returns (root: KDNode<V>)
    requires 0 <= left < right < a.Length
    requires Distinct(Window(a, left, right)) && nodes == Elements(Window(a, left, right))
    modifies a, nodes`depth, nodes`left, nodes`right, nodes`Repr, nodes`Model
    decreases right - left, 3
    ensures root.Valid() && root.Repr == nodes
    ensures Ordered(ModelOf(root)) && Depths(ModelOf(root), depth)
    ensures forall k :: 0 <= k < a.Length && !(left <= k <= right) ==> a[k] == old(a[k])
  {
    var median := PlaceMedian(a, depth, left, right, pick, nodes);
    ghost var ls, rs := a[left..median], a[median + 1..right + 1];
    assert forall k :: 0 <= k < |ls| ==> ls[k] == a[left + k];
    assert forall k :: 0 <= k < |rs| ==> rs[k] == a[median + 1 + k];
    root := LinkAroundMedian(a, depth, left, median, right, pick, ls, a[median], rs);
  }

  /**
   * The two recursive calls of the rebuild and the linking of the median
   * node `m` at `median` above their results, once the window is split into
   * `ls`, `m` and `rs`.
   */
  method LinkAroundMedian<V(==)>(a: array<KDNode<V>>, depth: int, left: int, median: int, right: int, pick: nat -> nat,
                                 ghost ls: seq<KDNode<V>>, ghost m: KDNode<V>, ghost rs: seq<KDNode<V>>)
    returns (root: KDNode<V>)
    requires 0 <= left <= median <= right < a.Length
    requires a[left..median] == ls && a[median] == m && a[median + 1..right + 1] == rs
    requires Distinct(ls) && Distinct(rs) && m !in ls && m !in rs && Elements(ls) !! Elements(rs)
    requires forall k | 0 <= k < |ls| :: Key(ls[k], depth) < Key(m, depth)
    requires forall k | 0 <= k < |rs| :: Key(m, depth) <= Key(rs[k], depth)
    modifies a, (Elements(ls) + {m} + Elements(rs))`depth, (Elements(ls) + {m} + Elements(rs))`left,
             (Elements(ls) + {m} + Elements(rs))`right, (Elements(ls) + {m} + Elements(rs))`Repr,
             (Elements(ls) + {m} + Elements(rs))`Model
    decreases right - left, 2
    ensures root == m && root.Valid() && root.Repr == Elements(ls) + {m} + Elements(rs)
    ensures Ordered(root.Model) && Depths(root.Model, depth)
    ensures forall k :: 0 <= k < a.Length && !(left <= k < median) && !(median < k <= right) ==> a[k] == old(a[k])
  {
    var l := BuildLeft(a, depth, left, median, pick, ls, m);
    assert forall k :: 0 <= k < |rs| ==> a[median + 1 + k] == rs[k];
    root := AttachRight(a, depth, median, right, pick, l, m, rs);
  }

  /**
   * The first recursive call of the rebuild, on the window [left, median),
   * with what the linking needs of its result.
   */
  method BuildLeft<V(==)>(a: array<KDNode<V>>, depth: int, left: int, median: int, pick: nat -> nat,
                          ghost ls: seq<KDNode<V>>, ghost m: KDNode<V>)
    returns (l: KDNode?<V>)
    requires 0 <= left <= median <= a.Length
    requires a[left..median] == ls && Distinct(ls)
    requires forall k | 0 <= k < |ls| :: Key(ls[k], depth) < Key(m, depth)
    modifies a, Elements(ls)`depth, Elements(ls)`left, Elements(ls)`right, Elements(ls)`Repr, Elements(ls)`Model
    decreases median - left, 0
    ensures (l == null) == (ls == [])
    ensures l != null ==> l.Valid() && l.Repr == Elements(ls)
    ensures Ordered(ModelOf(l)) && Depths(ModelOf(l), depth + 1)
    ensures Below(ModelOf(l), depth, Key(m, depth))
    ensures forall k :: 0 <= k < a.Length && !(left <= k < median) ==> a[k] == old(a[k])
  {
    assert Window(a, left, median - 1) == ls;
    l := Build(a, depth + 1, left, median - 1, pick, Elements(ls));
    forall o | o in ReprOf(l)
      ensures AxisCoord(depth, o.x, o.y) < Key(m, depth)
    {
      var k :| 0 <= k < |ls| && ls[k] == o;
    }
    BelowFromNodes(l, depth, Key(m, depth));
  }

  /**
   * The second recursive call of the rebuild and the linking of the median
   * node `m` above the left subtree `l`, already built, and the right one.
   */
  method AttachRight<V(==)>(a: array<KDNode<V>>, depth: int, median: int, right: int, pick: nat -> nat,
                            l: KDNode?<V>, ghost m: KDNode<V>, ghost rs: seq<KDNode<V>>)
    returns (root: KDNode<V>)
    requires 0 <= median <= right < a.Length
    requires a[median] == m && |rs| == right - median && forall k :: 0 <= k < |rs| ==> a[median + 1 + k] == rs[k]
    requires Distinct(rs) && m !in rs
    requires forall k | 0 <= k < |rs| :: Key(m, depth) <= Key(rs[k], depth)
    requires l != null ==> l.Valid() && m !in l.Repr && l.Repr !! Elements(rs)
    requires Ordered(ModelOf(l)) && Depths(ModelOf(l), depth + 1) && Below(ModelOf(l), depth, Key(m, depth))
    modifies a, ({m} + Elements(rs))`depth, ({m} + Elements(rs))`left, ({m} + Elements(rs))`right,
             ({m} + Elements(rs))`Repr, ({m} + Elements(rs))`Model
    decreases right - median, 1
    ensures root == m && root.Valid() && root.Repr == {m} + old(ReprOf(l)) + Elements(rs)
    ensures Ordered(root.Model) && Depths(root.Model, depth)
    ensures forall k :: 0 <= k < a.Length && !(median < k <= right) ==> a[k] == old(a[k])
  {
    root := a[median];
    ghost var lm, lr := ModelOf(l), ReprOf(l);
    var r := BuildRight(a, depth, median, right, pick, l, m, rs);
    assert ModelOf(l) == lm && ReprOf(l) == lr;
    Join(root, depth, l, r, lm, ModelOf(r));
  }

  /**
   * The second recursive call of the rebuild, on the window (median, right],
   * with what the linking needs of its result; the left subtree `l`, built
   * before, is left as it was.
   */
  method BuildRight<V(==)>(a: array<KDNode<V>>, depth: int, median: int, right: int, pick: nat -> nat,
                           l: KDNode?<V>, ghost m: KDNode<V>, ghost rs: seq<KDNode<V>>)
    returns (r: KDNode?<V>)
    requires 0 <= median <= right < a.Length
    requires |rs| == right - median && forall k :: 0 <= k < |rs| ==> a[median + 1 + k] == rs[k]
    requires Distinct(rs)
    requires forall k | 0 <= k < |rs| :: Key(m, depth) <= Key(rs[k], depth)
    requires l != null ==> l.Valid() && l.Repr !! Elements(rs)
    modifies a, Elements(rs)`depth, Elements(rs)`left, Elements(rs)`right, Elements(rs)`Repr, Elements(rs)`Model
    decreases right - median, 0
    ensures (r == null) == (rs == [])
    ensures r != null ==> r.Valid() && r.Repr == Elements(rs)
    ensures Ordered(ModelOf(r)) && Depths(ModelOf(r), depth + 1)
    ensures AtLeast(ModelOf(r), depth, Key(m, depth))
    ensures l != null ==> l.Valid() && l.Repr == old(l.Repr) && l.Model == old(l.Model)
    ensures forall k :: 0 <= k < a.Length && !(median < k <= right) ==> a[k] == old(a[k])
  {
    assert a[median + 1..right + 1] == rs == Window(a, median + 1, right);
    r := Build(a, depth + 1, median + 1, right, pick, Elements(rs));
    if l != null {
      StaysValid(l);
    }
    forall o | o in ReprOf(r)
      ensures Key(m, depth) <= AxisCoord(depth, o.x, o.y)
    {
      var k :| 0 <= k < |rs| && rs[k] == o;
    }
    AtLeastFromNodes(r, depth, Key(m, depth));
  }

  /**
   * The links of the rebuild at one node: `root` takes the depth `depth`
   * and the subtrees `l` and `r`, already built, whose value views `lm` and
   * `rm` lie below and at or above it on the axis of `depth`.
   */
  method Join<V(==)>(root: KDNode<V>, depth: int, l: KDNode?<V>, r: KDNode?<V>, ghost lm: Tree<V>, ghost rm: Tree<V>)
    requires l != null ==> l.Valid() && root !in l.Repr
    requires r != null ==> r.Valid() && root !in r.Repr
    requires l != null && r != null ==> l.Repr !! r.Repr
    requires lm == ModelOf(l) && rm == ModelOf(r)
    requires Ordered(lm) && Depths(lm, depth + 1) && Below(lm, depth, Key(root, depth))
    requires Ordered(rm) && Depths(rm, depth + 1) && AtLeast(rm, depth, Key(root, depth))
    modifies root`depth, root`left, root`right, root`Repr, root`Model
    ensures root.Valid() && root.Repr == {root} + old(ReprOf(l)) + old(ReprOf(r))
    ensures Ordered(root.Model) && Depths(root.Model, depth)
  {
    root.Attach(depth, l, r);
    assert root.Model == Node(root.val, root.x, root.y, depth, lm, rm);
  }
}
