/**
 * The walks of `KDTree` over a subtree of nodes: the two breadth-first
 * traversals `convertToList` and `getAllValues`, which empty a queue of
 * subtree roots, and the private recursive `rangeSearch`, which uses the
 * second when a whole subtree lies in the range.
 *
 * A queue is described by its forest: the preorder lists of the subtrees
 * rooted at its nodes, one after the other. Taking a node off the queue and
 * putting its children on it moves that node from the forest to the output
 * and keeps the rest of the forest as it was, up to order.
 */
module Traversal {
  import opened Geometry
  import opened Trees
  import opened KDNodes
  import opened NodeLists
  import opened RangeQuery

  /** Every node waiting in the queue `q` roots a valid subtree whose nodes lie in `S`. */
  ghost predicate Queued<V>(q: seq<KDNode<V>>, S: set<KDNode<V>>)
    reads S
  {
    forall i | 0 <= i < |q| :: q[i] in S && q[i].Repr <= S && q[i].Valid()
  }

  /** The nodes still to be visited from the queue `q`: the preorder lists of its subtrees, in queue order. */
  ghost function Forest<V>(q: seq<KDNode<V>>, S: set<KDNode<V>>): seq<KDNode<V>>
    requires Queued(q, S)
    reads S
    decreases |q|
  {
    if q == [] then [] else
      assert Queued(q[1..], S) by {
        forall i | 0 <= i < |q| - 1 ensures q[1..][i] == q[i + 1] { }
      }
      NodesOf(q[0]) + Forest(q[1..], S)
  }

  /** The queue `q` after a visit of `n` puts its children at the back, left before right, skipping the null ones. */
  function Enqueue<V>(q: seq<KDNode<V>>, n: KDNode<V>): (r: seq<KDNode<V>>)
    reads n
    ensures |r| == |q| + (if n.left != null then 1 else 0) + (if n.right != null then 1 else 0)
    ensures r[..|q|] == q
    ensures n.left != null ==> r[|q|] == n.left
    ensures n.right != null ==> r[|r| - 1] == n.right
  {
    var q' := if n.left != null then q + [n.left] else q;
    if n.right != null then q' + [n.right] else q'
  }

  /** The values held by a list of nodes. */
  ghost function ValuesOf<V>(s: seq<KDNode<V>>): set<V>
    reads set n | n in s
  {
    set n | n in s :: n.val
  }

  /** Putting one more subtree root at the back of the queue appends its subtree to the forest. */
  lemma {:induction false} ForestSnoc<V>(q: seq<KDNode<V>>, n: KDNode<V>, S: set<KDNode<V>>)
    requires Queued(q, S) && n in S && n.Repr <= S && n.Valid()
    ensures Queued(q + [n], S)
    ensures Forest(q + [n], S) == Forest(q, S) + NodesOf(n)
    decreases |q|
  {
    assert Queued(q + [n], S) by {
      forall i | 0 <= i < |q| + 1 ensures (q + [n])[i] == if i < |q| then q[i] else n { }
    }
    if q == [] {
      assert [n][1..] == [];
    } else {
      assert (q + [n])[1..] == q[1..] + [n];
      ForestSnoc(q[1..], n, S);
    }
  }

  /**
   * One visit of the traversal: the queue loses its front node `q[0]` and
   * gains that node's children at the back; the forest loses exactly the
   * visited node.
   */
  lemma Visit<V>(q: seq<KDNode<V>>, S: set<KDNode<V>>)
    requires q != [] && Queued(q, S)
    ensures Queued(Enqueue(q[1..], q[0]), S)
    ensures multiset([q[0]] + Forest(Enqueue(q[1..], q[0]), S)) == multiset(Forest(q, S))
  {
    var n, rest := q[0], q[1..];
    assert Queued(rest, S) by {
      forall i | 0 <= i < |rest| ensures rest[i] == q[i + 1] { }
    }
    assert n.Valid();
    var l, r := n.left, n.right;
    var mid := if l != null then rest + [l] else rest;
    if l != null {
      ForestSnoc(rest, l, S);
      assert Forest(mid, S) == Forest(rest, S) + NodesOf(l);
    } else {
      assert Forest(mid, S) == Forest(rest, S) + NodesOf(l);
    }
    if r != null {
      ForestSnoc(mid, r, S);
    }
    assert Forest(Enqueue(rest, n), S) == Forest(rest, S) + NodesOf(l) + NodesOf(r);
    assert Forest(q, S) == [n] + NodesOf(l) + NodesOf(r) + Forest(rest, S);
    Rotate<KDNode<V>>([n], Forest(rest, S), NodesOf(l), NodesOf(r));
  }

  /** Moving a block of a list past another one keeps the multiset of its elements. */
  lemma Rotate<T>(x: seq<T>, a: seq<T>, l: seq<T>, r: seq<T>)
    ensures multiset(x + (a + l + r)) == multiset(x + l + r + a)
  {
  }

  /** The queue holding just the subtree root `n` has the preorder list of that subtree as its forest. */
  lemma ForestOfRoot<V>(n: KDNode<V>)
    requires n.Valid()
    ensures Queued([n], n.Repr) && Forest([n], n.Repr) == NodesOf(n)
  {
    assert [n][1..] == [];
  }

  /** Lists that are rearrangements of each other hold the same values. */
  lemma ValuesOfPermuted<V>(s: seq<KDNode<V>>, t: seq<KDNode<V>>)
    requires multiset(s) == multiset(t)
    ensures ValuesOf(s) == ValuesOf(t)
  {
    forall n
      ensures n in s <==> n in t
    {
      assert n in s <==> n in multiset(s);
      assert n in t <==> n in multiset(t);
    }
  }

  /** The values held by a concatenation of lists. */
  lemma ValuesOfConcat<V>(a: seq<KDNode<V>>, b: seq<KDNode<V>>)
    ensures ValuesOf(a + b) == ValuesOf(a) + ValuesOf(b)
  {
    forall o
      ensures o in a + b <==> o in a || o in b
    {
    }
  }

  /** Outputting one more node adds its value. */
  lemma ValuesOfSnoc<V>(s: seq<KDNode<V>>, n: KDNode<V>)
    ensures ValuesOf(s + [n]) == ValuesOf(s) + {n.val}
  {
    ValuesOfConcat(s, [n]);
    assert ValuesOf([n]) == {n.val};
  }

  /** The values held by the nodes of a valid subtree are those of its value view. */
  lemma {:induction false} TreeValues<V>(n: KDNode?<V>)
    requires n != null ==> n.Valid()
    decreases ReprOf(n)
    ensures ValuesOf(NodesOf(n)) == Values(ModelOf(n))
  {
    if n != null {
      TreeValues(n.left);
      TreeValues(n.right);
      var ls, rs := NodesOf(n.left), NodesOf(n.right);
      var nl: seq<KDNode<V>> := [n] + ls;
      ValuesOfConcat<V>(nl, rs);
      ValuesOfConcat<V>([n], ls);
      assert ValuesOf([n]) == {n.val};
    }
  }

  /**
   * The state of a traversal that has output `done` and still holds `q`:
   * between them they account for `all`, the nodes of the subtree walked.
   */
  ghost predicate Pending<V>(done: seq<KDNode<V>>, q: seq<KDNode<V>>, S: set<KDNode<V>>, all: multiset<KDNode<V>>)
    reads S
  {
    Queued(q, S) && multiset(done + Forest(q, S)) == all
  }

  /** A visit moves its node from the queue's forest to the output. */
  lemma Step<V>(done: seq<KDNode<V>>, q: seq<KDNode<V>>, S: set<KDNode<V>>, all: multiset<KDNode<V>>)
    requires q != [] && Pending(done, q, S, all)
    ensures Pending(done + [q[0]], Enqueue(q[1..], q[0]), S, all)
    ensures |Forest(Enqueue(q[1..], q[0]), S)| < |Forest(q, S)|
  {
    var q' := Enqueue(q[1..], q[0]);
    Visit(q, S);
    var f, f' := Forest(q, S), Forest(q', S);
    assert multiset(done + [q[0]] + f') == multiset(done) + multiset([q[0]] + f');
    assert |[q[0]] + f'| == |multiset([q[0]] + f')| == |multiset(f)| == |f|;
  }

  /** The start of a traversal from `n`: the queue holds `n` alone. */
  lemma Start<V>(n: KDNode<V>)
    requires n.Valid()
    ensures Pending([], [n], n.Repr, multiset(NodesOf(n)))
  {
    ForestOfRoot(n);
    assert [] + Forest([n], n.Repr) == NodesOf(n);
  }

  /** The end of a traversal: with the queue empty the output accounts for all the nodes. */
  lemma Finish<V>(done: seq<KDNode<V>>, S: set<KDNode<V>>, all: multiset<KDNode<V>>)
    requires Pending(done, [], S, all)
    ensures multiset(done) == all
  {
    assert done + Forest([], S) == done;
  }

  /**
   * `convertToList(current)`: the nodes of the subtree, each once, in
   * breadth-first order. The list is not a copy: it holds the tree's own
   * nodes, and so the entries of the subtree.
   */
  method ConvertToList<V(==)>(current: KDNode<V>) returns (list: seq<KDNode<V>>)
    requires current.Valid()
    ensures Distinct(list) && Elements(list) == current.Repr
    ensures EntriesOf(list) == Entries(current.Model)
  {
    ghost var S, ns := current.Repr, NodesOf(current);
    ghost var all := multiset(ns);
    TreeNodes(current);
    TreeEntries(current);
    var q: seq<KDNode<V>> := [current];
    list := [];
    Start(current);
    label walk:
    while q != []
      invariant Pending(list, q, S, all)
      decreases |Forest(q, S)|
    {
      var top := q[0];
      Step(list, q, S, all);
      q := Enqueue(q[1..], top);
      list := list + [top];
    }
    Finish(list, S, all);
    SameMultisetNodes<KDNode<V>>(list, ns);
    EntriesOfFrame@walk(ns);
    EntriesOfPermuted(list, ns);
  }

  /** `getAllValues(current)`: the values of the subtree, gathered by the same breadth-first walk. */
  method GetAllValues<V(==)>(current: KDNode<V>) returns (vs: set<V>)
    requires current.Valid()
    ensures vs == Values(current.Model)
  {
    ghost var S, ns := current.Repr, NodesOf(current);
    ghost var all := multiset(ns);
    TreeValues(current);
    var q: seq<KDNode<V>> := [current];
    vs := {};
    ghost var done: seq<KDNode<V>> := [];
    Start(current);
    label walk:
    while q != []
      invariant Pending(done, q, S, all)
      invariant vs == ValuesOf(done)
      decreases |Forest(q, S)|
    {
      var top := q[0];
      Step(done, q, S, all);
      q := Enqueue(q[1..], top);
      ValuesOfSnoc(done, top);
      done := done + [top];
      vs := vs + {top.val};
    }
    Finish(done, S, all);
    ValuesOfPermuted(done, ns);
    ValuesOfFrame@walk(ns);
  }

  /** The values held by a list of nodes depend only on the values its nodes hold. */
  twostate lemma ValuesOfFrame<V>(s: seq<KDNode<V>>)
    requires forall k | 0 <= k < |s| :: old(s[k].val) == s[k].val
    ensures old(ValuesOf(s)) == ValuesOf(s)
  {
    forall v
      ensures v in old(ValuesOf(s)) <==> v in ValuesOf(s)
    {
      if v in old(ValuesOf(s)) {
        var n :| n in s && old(n.val) == v;
        var k :| 0 <= k < |s| && s[k] == n;
      }
      if v in ValuesOf(s) {
        var n :| n in s && n.val == v;
        var k :| 0 <= k < |s| && s[k] == n;
      }
    }
  }

  /**
   * The private `rangeSearch(range, current, bound)`: `None` stands for the
   * `null` it returns for an empty subtree or a bound that misses the range.
   */
  method RangeSearchAt<V(==)>(range: Rect, current: KDNode?<V>, bound: Rect,
                              overlaps: (Rect, Rect) -> bool, contains: (Rect, Rect) -> bool)
    returns (r: Option<set<V>>)
    requires current != null ==> current.Valid()
    decreases ReprOf(current)
    ensures r == RangeSearchFrom(ModelOf(current), range, bound, overlaps, contains)
  {
    if current == null {
      return None;
    }
    if !overlaps(range, bound) {
      return None;
    } else if contains(range, bound) {
      var all := GetAllValues(current);
      return Some(all);
    }
    ghost var t := current.Model;
    assert t == Node(current.val, current.x, current.y, current.depth, ModelOf(current.left), ModelOf(current.right));
    var s: set<V> := {};
    if current.x >= range.x && current.x <= range.x + range.width && current.y >= range.y && current.y <= range.y + range.height {
      s := s + {current.val};
    }
    var temp := RangeSearchAt(range, current.left, TrimRight(current.depth, current.x, current.y, bound), overlaps, contains);
    if temp.Some? && temp.value != {} {
      s := s + temp.value;
    }
    ghost var fromLeft := temp;
    assert s == (if InRect(range, t.x, t.y) then {t.val} else {}) + Got(fromLeft);
    assert ModelOf(current.right) == t.right;
    temp := RangeSearchAt(range, current.right, TrimLeft(current.depth, current.x, current.y, bound), overlaps, contains);
    if temp.Some? && temp.value != {} {
      s := s + temp.value;
    }
    assert s == (if InRect(range, t.x, t.y) then {t.val} else {}) + Got(fromLeft) + Got(temp);
    return Some(s);
  }
}
