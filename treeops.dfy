/**
 * The recursive private helpers of `KDTree` that walk and relink nodes:
 * `insert`, `exists`, `findMin`, `findMax` and `delete`. Each is proved to
 * act on the subtree's value view as the matching function on `Tree` does.
 * The branches of `insert` and `delete` that recurse into a child and relink
 * it are written as methods of their own.
 */
module TreeOps {
  import opened Geometry
  import opened Trees
  import opened Lookup
  import opened Extremes
  import opened Deletion
  import opened KDNodes

  /** The private `insert`: the subtree root after placing (actor, x, y) below `current`, which sits at `depth`. */
  method InsertAt<V(==)>(current: KDNode?<V>, actor: V, x: Coord, y: Coord, depth: int) returns (r: KDNode<V>)
    requires current != null ==> current.Valid()
    modifies ReprOf(current)
    decreases ReprOf(current), 1
    ensures r.Valid()
    ensures r.Model == Insert(old(ModelOf(current)), actor, x, y, depth)
    ensures current != null ==> r == current
    ensures old(ReprOf(current)) <= r.Repr && fresh(r.Repr - old(ReprOf(current)))
  {
    if current == null {
      r := new KDNode(actor, x, y, depth);
      return;
    }
    if current.Equals(x, y, actor) {
      return current;
    }
    if current.Compare(x, y, depth) < 0 {
      InsertLeft(current, actor, x, y, depth);
    } else {
      InsertRight(current, actor, x, y, depth);
    }
    r := current;
  }

  /** The branch of `insert` that descends left: `current.left = insert(current.left, ..., depth + 1)`. */
  method InsertLeft<V(==)>(current: KDNode<V>, actor: V, x: Coord, y: Coord, depth: int)
    requires current.Valid()
    modifies current.Repr
    decreases current.Repr, 0
    ensures current.Valid()
    ensures current.Model == old(current.Model).(left := Insert(old(current.Model).left, actor, x, y, depth + 1))
    ensures old(current.Repr) <= current.Repr && fresh(current.Repr - old(current.Repr))
  {
    ghost var other := current.right;
    assert other != null ==> other.Valid() && current !in other.Repr && other.Repr !! ReprOf(current.left);
    var l := InsertAt(current.left, actor, x, y, depth + 1);
    assert other != null ==> other.Valid() && other.Repr !! l.Repr;
    current.Relink(current.val, current.x, current.y, current.depth, l, current.right);
  }

  /** The branch of `insert` that descends right: `current.right = insert(current.right, ..., depth + 1)`. */
  method InsertRight<V(==)>(current: KDNode<V>, actor: V, x: Coord, y: Coord, depth: int)
    requires current.Valid()
    modifies current.Repr
    decreases current.Repr, 0
    ensures current.Valid()
    ensures current.Model == old(current.Model).(right := Insert(old(current.Model).right, actor, x, y, depth + 1))
    ensures old(current.Repr) <= current.Repr && fresh(current.Repr - old(current.Repr))
  {
    ghost var other := current.left;
    assert other != null ==> other.Valid() && current !in other.Repr && other.Repr !! ReprOf(current.right);
    var rt := InsertAt(current.right, actor, x, y, depth + 1);
    assert other != null ==> other.Valid() && other.Repr !! rt.Repr;
    current.Relink(current.val, current.x, current.y, current.depth, current.left, rt);
  }

  /** The private `exists`: the descent from `current`, each node compared on its own axis. */
  method ExistsFrom<V(==)>(current: KDNode?<V>, actor: V, x: Coord, y: Coord) returns (b: bool)
    requires current != null ==> current.Valid()
    decreases ReprOf(current)
    ensures b == Exists(ModelOf(current), actor, x, y)
  {
    if current == null {
      return false;
    }
    var depth := current.depth;
    if current.Equals(x, y, actor) {
      return true;
    }
    if current.Compare(x, y, depth) < 0 {
      b := ExistsFrom(current.left, actor, x, y);
    } else {
      b := ExistsFrom(current.right, actor, x, y);
    }
  }

  /** The private `findMin`: a node of the subtree holding the least entry on the axis of `axisDepth`. */
  method FindMinNode<V(==)>(current: KDNode?<V>, axisDepth: int) returns (m: KDNode?<V>)
    requires current != null ==> current.Valid()
    decreases ReprOf(current)
    ensures (m == null) == (current == null)
    ensures m != null ==> m in ReprOf(current) && FindMin(ModelOf(current), axisDepth) == Some(Entry(m.val, m.x, m.y))
  {
    if current == null {
      return null;
    }
    var depth := current.depth;
    ghost var t := current.Model;
    m := current;
    if depth % 2 == axisDepth % 2 {
      if current.left != null {
        m := FindMinNode(current.left, axisDepth);
      }
    } else {
      ghost var own := Entry(t.val, t.x, t.y);
      var sub := FindMinNode(current.left, axisDepth);
      if sub != null && sub.CompareTo(m, axisDepth) < 0 {
        m := sub;
      }
      ghost var best := Lower(FindMin(t.left, axisDepth), own, axisDepth);
      assert Entry(m.val, m.x, m.y) == best;
      sub := FindMinNode(current.right, axisDepth);
      if sub != null && sub.CompareTo(m, axisDepth) < 0 {
        m := sub;
      }
      assert Entry(m.val, m.x, m.y) == Lower(FindMin(t.right, axisDepth), best, axisDepth);
    }
  }

  /** The private `findMax`: a node of the subtree holding the greatest entry on the axis of `axisDepth`. */
  method FindMaxNode<V(==)>(current: KDNode?<V>, axisDepth: int) returns (m: KDNode?<V>)
    requires current != null ==> current.Valid()
    decreases ReprOf(current)
    ensures (m == null) == (current == null)
    ensures m != null ==> m in ReprOf(current) && FindMax(ModelOf(current), axisDepth) == Some(Entry(m.val, m.x, m.y))
  {
    if current == null {
      return null;
    }
    var depth := current.depth;
    ghost var t := current.Model;
    m := current;
    if depth % 2 == axisDepth % 2 {
      if current.right != null {
        m := FindMaxNode(current.right, axisDepth);
      }
    } else {
      ghost var own := Entry(t.val, t.x, t.y);
      var sub := FindMaxNode(current.left, axisDepth);
      if sub != null && sub.CompareTo(m, axisDepth) > 0 {
        m := sub;
      }
      ghost var best := Higher(FindMax(t.left, axisDepth), own, axisDepth);
      assert Entry(m.val, m.x, m.y) == best;
      sub := FindMaxNode(current.right, axisDepth);
      if sub != null && sub.CompareTo(m, axisDepth) > 0 {
        m := sub;
      }
      assert Entry(m.val, m.x, m.y) == Higher(FindMax(t.right, axisDepth), best, axisDepth);
    }
  }

  /**
   * The private `delete`: the subtree root after removing (actor, x, y) from
   * the descent path below `current`, or null when `current` was a leaf
   * holding it, which is then left as it was.
   */
  method DeleteAt<V(==)>(current: KDNode?<V>, actor: V, x: Coord, y: Coord) returns (r: KDNode?<V>)
    requires current != null ==> current.Valid()
    modifies ReprOf(current)
    decreases ReprOf(current), 1
    ensures ModelOf(r) == Delete(old(ModelOf(current)), actor, x, y)
    ensures r != null ==> r == current && r.Valid() && r.Repr <= old(ReprOf(current))
    ensures r == null && current != null ==> unchanged(current) && current.left == null && current.right == null
  {
    if current == null {
      return null;
    }
    var depth := current.depth;
    if current.Equals(x, y, actor) {
      if current.right != null {
        var min := FindMinNode(current.right, depth);
        ReplaceFromRight(current, actor, x, y, min.val, min.x, min.y);
      } else if current.left != null {
        var min := FindMinNode(current.left, depth);
        ReplaceFromLeft(current, actor, x, y, min.val, min.x, min.y);
      } else {
        return null;
      }
    } else if current.Compare(x, y, depth) < 0 {
      DeleteInLeft(current, actor, x, y);
    } else {
      DeleteInRight(current, actor, x, y);
    }
    r := current;
  }

  /**
   * The branch of `delete` for a matching node with a right subtree: the node
   * takes over the entry (mv, mx, my) of the least node of that subtree on its
   * own axis, which is then deleted from it.
   */
  method ReplaceFromRight<V(==)>(current: KDNode<V>, actor: V, x: Coord, y: Coord, mv: V, mx: Coord, my: Coord)
    requires current.Valid() && current.Equals(x, y, actor) && current.right != null
    requires FindMin(current.right.Model, current.depth) == Some(Entry(mv, mx, my))
    modifies current.Repr
    decreases current.Repr, 0
    ensures current.Valid() && current.Repr <= old(current.Repr)
    ensures current.Model == Delete(old(current.Model), actor, x, y)
  {
    ghost var t := current.Model;
    ghost var other := current.left;
    assert other != null ==> other.Valid() && current !in other.Repr && other.Repr !! current.right.Repr;
    assert Delete(t, actor, x, y) == Node(mv, mx, my, t.depth, t.left, Delete(t.right, mv, mx, my));
    var rt := DeleteAt(current.right, mv, mx, my);
    assert ModelOf(current.left) == t.left && ReprOf(current.left) == ReprOf(other);
    current.Relink(mv, mx, my, current.depth, current.left, rt);
  }

  /**
   * The branch of `delete` for a matching node with only a left subtree: the
   * node takes over the entry (mv, mx, my) of the least node of that subtree
   * on its own axis, and the subtree, less that entry, moves to the right slot.
   */
  method ReplaceFromLeft<V(==)>(current: KDNode<V>, actor: V, x: Coord, y: Coord, mv: V, mx: Coord, my: Coord)
    requires current.Valid() && current.Equals(x, y, actor) && current.right == null && current.left != null
    requires FindMin(current.left.Model, current.depth) == Some(Entry(mv, mx, my))
    modifies current.Repr
    decreases current.Repr, 0
    ensures current.Valid() && current.Repr <= old(current.Repr)
    ensures current.Model == Delete(old(current.Model), actor, x, y)
  {
    ghost var t := current.Model;
    assert Delete(t, actor, x, y) == Node(mv, mx, my, t.depth, Nil, Delete(t.left, mv, mx, my));
    var rt := DeleteAt(current.left, mv, mx, my);
    current.Relink(mv, mx, my, current.depth, null, rt);
  }

  /** The branch of `delete` that descends left: `current.left = delete(current.left, ...)`. */
  method DeleteInLeft<V(==)>(current: KDNode<V>, actor: V, x: Coord, y: Coord)
    requires current.Valid() && !current.Equals(x, y, actor)
    requires current.Compare(x, y, current.depth) < 0
    modifies current.Repr
    decreases current.Repr, 0
    ensures current.Valid() && current.Repr <= old(current.Repr)
    ensures current.Model == Delete(old(current.Model), actor, x, y)
  {
    ghost var other := current.right;
    assert other != null ==> other.Valid() && current !in other.Repr && other.Repr !! ReprOf(current.left);
    var l := DeleteAt(current.left, actor, x, y);
    current.Relink(current.val, current.x, current.y, current.depth, l, current.right);
  }

  /** The branch of `delete` that descends right: `current.right = delete(current.right, ...)`. */
  method DeleteInRight<V(==)>(current: KDNode<V>, actor: V, x: Coord, y: Coord)
    requires current.Valid() && !current.Equals(x, y, actor)
    requires current.Compare(x, y, current.depth) >= 0
    modifies current.Repr
    decreases current.Repr, 0
    ensures current.Valid() && current.Repr <= old(current.Repr)
    ensures current.Model == Delete(old(current.Model), actor, x, y)
  {
    ghost var other := current.left;
    assert other != null ==> other.Valid() && current !in other.Repr && other.Repr !! ReprOf(current.right);
    var rt := DeleteAt(current.right, actor, x, y);
    current.Relink(current.val, current.x, current.y, current.depth, current.left, rt);
  }
}
