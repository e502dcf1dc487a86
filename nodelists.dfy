/**
 * Lists of nodes, as `convertToList` produces them and `createKDTreeFromList`
 * consumes them: a list without repetitions, the set of its nodes and the
 * entries its nodes hold, and the preorder list of the nodes of a subtree,
 * which ties the entries of a subtree's value view to its nodes.
 */
module NodeLists {
  import opened Trees
  import opened KDNodes

  /** No node occurs twice in the list. */
  ghost predicate Distinct<T>(s: seq<T>) {
    forall x | x in multiset(s) :: multiset(s)[x] == 1
  }

  /** The nodes of a list, as a set. */
  ghost function Elements<T>(s: seq<T>): set<T> {
    set x | x in s
  }

  /** Two lists without repetitions that hold the same nodes are rearrangements of each other. */
  lemma SameNodes<T>(s: seq<T>, t: seq<T>)
    requires Distinct(s) && Distinct(t) && Elements(s) == Elements(t)
    ensures multiset(s) == multiset(t)
  {
    forall x
      ensures multiset(s)[x] == multiset(t)[x]
    {
      assert x in multiset(s) <==> x in Elements(s);
      assert x in multiset(t) <==> x in Elements(t);
    }
  }

  /** Lists that are rearrangements of each other are both free of repetitions or both not, and hold the same nodes. */
  lemma SameMultisetNodes<T>(s: seq<T>, t: seq<T>)
    requires multiset(s) == multiset(t)
    ensures Distinct(s) == Distinct(t) && Elements(s) == Elements(t)
  {
    forall x
      ensures x in s <==> x in t
    {
      assert x in s <==> x in multiset(s);
      assert x in t <==> x in multiset(t);
    }
  }

  /** The pieces around the median of a list without repetitions share no node. */
  lemma DistinctSplit<T>(ls: seq<T>, m: T, rs: seq<T>)
    requires Distinct(ls + [m] + rs)
    ensures Distinct(ls) && Distinct(rs)
    ensures m !in ls && m !in rs && Elements(ls) !! Elements(rs)
  {
    var w := ls + [m] + rs;
    assert multiset(w) == multiset(ls) + multiset{m} + multiset(rs);
    forall x | x in multiset(ls)
      ensures multiset(ls)[x] == 1 && x !in multiset(rs) && x != m
    {
      assert x in multiset(w);
    }
    forall x | x in multiset(rs)
      ensures multiset(rs)[x] == 1 && x != m
    {
      assert x in multiset(w);
    }
    assert m in multiset(w);
    forall x | x in ls
      ensures x !in rs
    {
      assert x in multiset(ls);
    }
  }

  /** A rearrangement of `ls + [m] + rs` holds the nodes of the three pieces. */
  lemma ElementsSplit<T>(w: seq<T>, ls: seq<T>, m: T, rs: seq<T>)
    requires multiset(w) == multiset(ls + [m] + rs)
    ensures Elements(w) == Elements(ls) + {m} + Elements(rs)
  {
    forall n
      ensures n in w <==> n in ls || n == m || n in rs
    {
      assert n in w <==> n in multiset(w);
      assert n in ls + [m] + rs <==> n in multiset(ls + [m] + rs);
    }
  }

  /** The entries of a concatenation. */
  lemma {:induction false} EntriesOfConcat<V>(s: seq<KDNode<V>>, t: seq<KDNode<V>>)
    ensures EntriesOf(s + t) == EntriesOf(s) + EntriesOf(t)
    decreases |t|
  {
    if t != [] {
      var t' := t[..|t| - 1];
      assert (s + t)[..|s + t| - 1] == s + t';
      EntriesOfConcat(s, t');
    } else {
      assert s + t == s;
    }
  }

  /** The entries of a one-node list. */
  lemma EntriesOfOne<V>(n: KDNode<V>)
    ensures EntriesOf([n]) == multiset{EntryOf(n)}
  {
    assert [n][..0] == [];
  }

  /** The entries of a list of nodes depend only on the entries each node holds. */
  twostate lemma {:induction false} EntriesOfFrame<V>(s: seq<KDNode<V>>)
    requires forall k | 0 <= k < |s| :: old(EntryOf(s[k])) == EntryOf(s[k])
    ensures old(EntriesOf(s)) == EntriesOf(s)
    decreases |s|
  {
    if s != [] {
      EntriesOfFrame(s[..|s| - 1]);
    }
  }

  /** A list is the part before position `j`, the element there and the part after it. */
  lemma SplitAt<T>(t: seq<T>, j: int)
    requires 0 <= j < |t|
    ensures t == t[..j] + [t[j]] + t[j + 1..]
    ensures multiset(t) == multiset(t[..j] + t[j + 1..]) + multiset{t[j]}
  {
    assert t == t[..j] + [t[j]] + t[j + 1..];
  }

  /** Taking the node at `j` out of a list takes its entry out of the list's entries. */
  lemma RemoveAt<V>(t: seq<KDNode<V>>, j: int)
    requires 0 <= j < |t|
    ensures multiset(t) == multiset(t[..j] + t[j + 1..]) + multiset{t[j]}
    ensures EntriesOf(t) == EntriesOf(t[..j] + t[j + 1..]) + multiset{EntryOf(t[j])}
  {
    var n, a, b := t[j], t[..j], t[j + 1..];
    var an := a + [n];
    SplitAt(t, j);
    EntriesOfConcat(an, b);
    EntriesOfConcat(a, [n]);
    EntriesOfConcat(a, b);
    EntriesOfOne(n);
  }

  /** A rearranged list holds the same entries. */
  lemma {:induction false} EntriesOfPermuted<V>(s: seq<KDNode<V>>, t: seq<KDNode<V>>)
    requires multiset(s) == multiset(t)
    ensures EntriesOf(s) == EntriesOf(t)
    decreases |s|
  {
    if s == [] {
      assert |t| == |multiset(t)| == 0;
    } else {
      var n := s[|s| - 1];
      var s' := s[..|s| - 1];
      assert s == s' + [n];
      assert n in multiset(t);
      var j :| 0 <= j < |t| && t[j] == n;
      var t' := t[..j] + t[j + 1..];
      RemoveAt(t, j);
      assert multiset(s') == multiset(s) - multiset{n};
      assert multiset(t') == multiset(t) - multiset{n};
      EntriesOfPermuted(s', t');
    }
  }

  /** The nodes of a valid subtree in preorder: the root, then its left and its right subtree. */
  ghost function NodesOf<V>(n: KDNode?<V>): seq<KDNode<V>>
    requires n != null ==> n.Valid()
    reads n, if n == null then {} else n.Repr
    decreases ReprOf(n)
  {
    if n == null then [] else [n] + NodesOf(n.left) + NodesOf(n.right)
  }

  /** The preorder list of a valid subtree holds each of its nodes once and nothing else. */
  lemma {:induction false} TreeNodes<V>(n: KDNode?<V>)
    requires n != null ==> n.Valid()
    decreases ReprOf(n)
    ensures Distinct(NodesOf(n)) && Elements(NodesOf(n)) == ReprOf(n)
  {
    if n != null {
      var ls, rs := NodesOf(n.left), NodesOf(n.right);
      TreeNodes(n.left);
      TreeNodes(n.right);
      assert n !in Elements(ls);
      assert n !in Elements(rs);
      assert Elements(ls) !! Elements(rs);
      DistinctJoin<KDNode<V>>(n, ls, rs);
      assert NodesOf(n) == [n] + ls + rs;
    }
  }

  /** The entries the nodes of a valid subtree hold are those of its value view. */
  lemma {:induction false} TreeEntries<V>(n: KDNode?<V>)
    requires n != null ==> n.Valid()
    decreases ReprOf(n)
    ensures EntriesOf(NodesOf(n)) == Entries(ModelOf(n))
  {
    if n != null {
      var ls, rs := NodesOf(n.left), NodesOf(n.right);
      TreeEntries(n.left);
      TreeEntries(n.right);
      var nl: seq<KDNode<V>> := [n] + ls;
      EntriesOfConcat(nl, rs);
      EntriesOfConcat([n], ls);
      EntriesOfOne(n);
    }
  }

  /** A node followed by two lists without repetitions that share nothing, with it or each other, has no repetitions. */
  lemma DistinctJoin<T>(n: T, ls: seq<T>, rs: seq<T>)
    requires Distinct(ls) && Distinct(rs) && n !in Elements(ls) && n !in Elements(rs)
    requires Elements(ls) !! Elements(rs)
    ensures Distinct([n] + ls + rs) && Elements([n] + ls + rs) == {n} + Elements(ls) + Elements(rs)
  {
    var s := [n] + ls + rs;
    assert multiset(s) == multiset{n} + multiset(ls) + multiset(rs);
    forall x | x in multiset(s)
      ensures multiset(s)[x] == 1
    {
      assert x in multiset(ls) <==> x in Elements(ls);
      assert x in multiset(rs) <==> x in Elements(rs);
    }
    forall x
      ensures x in s <==> x == n || x in ls || x in rs
    {
      assert x in s <==> x in multiset(s);
    }
  }
}
