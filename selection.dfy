/**
 * `swap`, `partition` and `findMedian`: a randomised quickselect over a
 * window [left, right] of the node list, ordering nodes by their coordinate
 * on the axis of a depth. The list is an array of node references; the
 * nodes themselves are never written.
 *
 * `Math.random()` is replaced by a caller-supplied oracle `pick`: round k of
 * the selection loop takes the pivot at offset `pick(k) % n` of a window of
 * n nodes, which reaches every offset in [0, n - 1], as
 * `(int)(Math.random() * (float) n)` does.
 */
module Selection {
  import opened Geometry
  import opened Trees
  import opened KDNodes

  /** The coordinate a node is ordered by at `depth`. */
  function Key<V>(n: KDNode<V>, depth: int): int
    reads n
  {
    AxisCoord(depth, n.x, n.y)
  }

  /** The multiset of a sequence. */
  ghost function Bag<T>(s: seq<T>): multiset<T> {
    multiset(s)
  }

  /** `t` is a rearrangement of `s` that moves nothing outside [lo, hi]. */
  ghost predicate Permuted<T>(s: seq<T>, t: seq<T>, lo: int, hi: int) {
    |s| == |t| && multiset(s) == multiset(t) &&
    forall k :: 0 <= k < |s| && !(lo <= k <= hi) ==> s[k] == t[k]
  }

  /** A rearrangement confined to [lo, hi] keeps the multiset of that window. */
  lemma PermutedWindow<T>(s: seq<T>, t: seq<T>, lo: int, hi: int)
    requires Permuted(s, t, lo, hi) && 0 <= lo <= hi + 1 <= |s|
    ensures multiset(s[lo..hi + 1]) == multiset(t[lo..hi + 1])
  {
    var a, b, c := s[..lo], s[lo..hi + 1], s[hi + 1..];
    var b' := t[lo..hi + 1];
    assert s == a + b + c;
    assert t == a + b' + c;
    assert multiset(s) == multiset(a) + multiset(b) + multiset(c);
    assert multiset(t) == multiset(a) + multiset(b') + multiset(c);
    MultisetCancel(multiset(a), multiset(b), multiset(b'), multiset(c));
  }

  /** Equal sums with equal outer parts have equal middle parts. */
  lemma MultisetCancel<T>(a: multiset<T>, b: multiset<T>, b': multiset<T>, c: multiset<T>)
    requires a + b + c == a + b' + c
    ensures b == b'
  {
    forall x
      ensures b[x] == b'[x]
    {
      assert (a + b + c)[x] == (a + b' + c)[x];
    }
  }

  /** Exchanging two entries keeps the multiset. */
  lemma SwapMultiset<T>(s: seq<T>, i: int, j: int)
    requires 0 <= i < |s| && 0 <= j < |s|
    ensures multiset(s[i := s[j]][j := s[i]]) == multiset(s)
  {
    if i != j {
      var t := s[i := s[j]];
      assert multiset(t) == multiset(s) - multiset{s[i]} + multiset{s[j]};
      assert t[j] == s[j];
      assert multiset(t[j := s[i]]) == multiset(t) - multiset{s[j]} + multiset{s[i]};
    }
  }

  /** Each node of a rearranged window comes from the window it was rearranged from. */
  lemma PermutedFrom<T>(s: seq<T>, t: seq<T>, lo: int, hi: int, k: int) returns (k': int)
    requires Permuted(s, t, lo, hi) && 0 <= lo <= k <= hi < |s|
    ensures lo <= k' <= hi && t[k] == s[k']
  {
    PermutedWindow(s, t, lo, hi);
    assert t[k] == t[lo..hi + 1][k - lo];
    assert t[k] in multiset(s[lo..hi + 1]);
    var j :| 0 <= j < hi + 1 - lo && s[lo..hi + 1][j] == t[k];
    k' := lo + j;
  }

  /** `swap(list, i, j)`: exchanges two nodes of the list. */
  method Swap<V(==)>(a: array<KDNode<V>>, i: int, j: int)
    requires 0 <= i < a.Length && 0 <= j < a.Length
    modifies a
    ensures a[i] == old(a[j]) && a[j] == old(a[i])
    ensures forall k :: 0 <= k < a.Length && k != i && k != j ==> a[k] == old(a[k])
    ensures Bag(a[..]) == Bag(old(a[..]))
  {
    if i == j {
      return;
    }
    SwapMultiset(a[..], i, j);
    var temp := a[i];
    a[i] := a[j];
    a[j] := temp;
    assert a[..] == old(a[..])[i := old(a[j])][j := old(a[i])];
  }

  /**
   * `partition(list, left, right, pivotIdx, depth)`: Lomuto partition of the
   * window around the node at `pivotIdx`. The pivot is parked at `right`;
   * every node strictly below it (`pivot.compare(node, depth) > 0`) is moved
   * to the front, and the pivot is then swapped into the first place after
   * them, which is returned.
   */
  method Partition<V(==)>(a: array<KDNode<V>>, left: int, right: int, pivotIdx: int, depth: int) returns (store: int)
    requires 0 <= left <= pivotIdx <= right < a.Length
    modifies a
    ensures left <= store <= right
    ensures a[store] == old(a[pivotIdx])
    ensures Bag(a[..]) == Bag(old(a[..]))
    ensures forall k :: 0 <= k < a.Length && !(left <= k <= right) ==> a[k] == old(a[k])
    ensures forall k :: left <= k < store ==> Key(a[k], depth) < Key(a[store], depth)
    ensures forall k :: store < k <= right ==> Key(a[store], depth) <= Key(a[k], depth)
  {
    var pivot := a[pivotIdx];
    Swap(a, pivotIdx, right);
    store := left;
    for i := left to right
      invariant left <= store <= i <= right
      invariant a[right] == pivot
      invariant Bag(a[..]) == Bag(old(a[..]))
      invariant forall k :: 0 <= k < a.Length && !(left <= k <= right) ==> a[k] == old(a[k])
      invariant forall k :: left <= k < store ==> Key(a[k], depth) < Key(pivot, depth)
      invariant forall k :: store <= k < i ==> Key(pivot, depth) <= Key(a[k], depth)
    {
      if pivot.CompareTo(a[i], depth) > 0 {
        Swap(a, store, i);
        store := store + 1;
      }
    }
    Swap(a, right, store);
  }

  /** The keys of a list of nodes at `depth`, position by position. */
  ghost function KeysOf<V>(s: seq<KDNode<V>>, depth: int): (ks: seq<int>)
    reads s
    ensures |ks| == |s|
    ensures forall k :: 0 <= k < |s| ==> ks[k] == Key(s[k], depth)
  {
    seq(|s|, k requires 0 <= k < |s| reads s => Key(s[k], depth))
  }

  /** `ks` holds, outside [lo, hi], the keys of `kb`, and inside it only keys taken from that window of `kb`. */
  ghost predicate Rearranged(kb: seq<int>, ks: seq<int>, lo: int, hi: int) {
    |kb| == |ks| &&
    (forall k :: 0 <= k < |ks| && !(lo <= k <= hi) ==> ks[k] == kb[k]) &&
    (forall k :: lo <= k <= hi && 0 <= k < |ks| ==> InWindow(kb, lo, hi, ks[k]))
  }

  /** Some key of `kb` within [lo, hi] equals `v`. */
  ghost predicate InWindow(kb: seq<int>, lo: int, hi: int, v: int) {
    exists k' :: lo <= k' <= hi && 0 <= k' < |kb| && kb[k'] == v
  }

  /** Rearranging the nodes of a window rearranges their keys. */
  lemma KeysRearranged<V>(before: seq<KDNode<V>>, s: seq<KDNode<V>>, lo: int, hi: int, depth: int)
    requires Permuted(before, s, lo, hi) && 0 <= lo && hi < |s|
    ensures Rearranged(KeysOf(before, depth), KeysOf(s, depth), lo, hi)
  {
    var kb, ks := KeysOf(before, depth), KeysOf(s, depth);
    forall k | lo <= k <= hi && 0 <= k < |ks|
      ensures InWindow(kb, lo, hi, ks[k])
    {
      var k' := PermutedFrom(before, s, lo, hi, k);
      assert ks[k] == kb[k'];
    }
  }

  /** The outcome of `partition` on the keys: [left, p) strictly below the pivot at p, (p, right] not below it. */
  ghost predicate SplitAt(ks: seq<int>, left: int, right: int, p: int) {
    0 <= left <= p <= right < |ks| &&
    (forall k :: left <= k < p ==> ks[k] < ks[p]) &&
    (forall k :: p < k <= right ==> ks[p] <= ks[k])
  }

  /**
   * The state of the selection loop: the window [left, right] holds keys in
   * [low, high]; before it, [left0, run) is strictly below `low` and
   * [run, left) equal to it; after it, up to right0, every key is at least `high`.
   */
  ghost predicate Narrowed(ks: seq<int>, left0: int, run: int, left: int, right: int, right0: int, low: int, high: int) {
    0 <= left0 <= run <= left <= right <= right0 < |ks| &&
    (forall k :: left <= k <= right ==> low <= ks[k] <= high) &&
    (forall k :: left0 <= k < run ==> ks[k] < low) &&
    (forall k :: run <= k < left ==> ks[k] == low) &&
    (forall k :: right < k <= right0 ==> high <= ks[k])
  }

  /**
   * The state once the middle position m is fixed: [left0, run) strictly
   * below the key at m, [run, m) equal to `low`, which is not above it, and
   * (m, right0] not below it.
   */
  ghost predicate Settled(ks: seq<int>, left0: int, run: int, m: int, right0: int, low: int) {
    0 <= left0 <= run <= m <= right0 < |ks| &&
    (forall k :: left0 <= k < run ==> ks[k] < ks[m]) &&
    (forall k :: run <= k < m ==> ks[k] == low) &&
    low <= ks[m] &&
    (forall k :: m < k <= right0 ==> ks[m] <= ks[k])
  }

  /** Before the first round nothing lies outside the window, whose keys are coordinates. */
  lemma NarrowStart(ks: seq<int>, left0: int, right0: int)
    requires 0 <= left0 <= right0 < |ks|
    requires forall k :: left0 <= k <= right0 ==> MinCoord <= ks[k] <= MaxCoord
    ensures Narrowed(ks, left0, left0, left0, right0, right0, MinCoord, MaxCoord)
  {
  }

  /** A rearranged window keeps the bounds of the window it came from. */
  lemma RearrangedKeepsBounds(kb: seq<int>, ks: seq<int>, lo: int, hi: int, low: int, high: int)
    requires Rearranged(kb, ks, lo, hi) && 0 <= lo && hi < |ks|
    requires forall k :: lo <= k <= hi ==> low <= kb[k] <= high
    ensures forall k :: lo <= k <= hi ==> low <= ks[k] <= high
  {
    forall k | lo <= k <= hi
      ensures low <= ks[k] <= high
    {
      var k' :| lo <= k' <= hi && 0 <= k' < |kb| && kb[k'] == ks[k];
    }
  }

  /** A round whose pivot lands past the middle: the window ends before the pivot. */
  lemma NarrowRight(kb: seq<int>, ks: seq<int>, left0: int, run: int, left: int, right: int,
                    right0: int, low: int, high: int, p: int)
    requires Narrowed(kb, left0, run, left, right, right0, low, high)
    requires Rearranged(kb, ks, left, right) && SplitAt(ks, left, right, p) && left < p
    ensures Narrowed(ks, left0, run, left, p - 1, right0, low, ks[p])
  {
    RearrangedKeepsBounds(kb, ks, left, right, low, high);
  }

  /** A round whose pivot lands before the middle: the window starts after the pivot. */
  lemma NarrowLeft(kb: seq<int>, ks: seq<int>, left0: int, run: int, left: int, right: int,
                   right0: int, low: int, high: int, p: int)
    requires Narrowed(kb, left0, run, left, right, right0, low, high)
    requires Rearranged(kb, ks, left, right) && SplitAt(ks, left, right, p) && p < right
    ensures Narrowed(ks, left0, if left < p || low < ks[p] then p else run, p + 1, right, right0, ks[p], high)
  {
    RearrangedKeepsBounds(kb, ks, left, right, low, high);
    if left < p {
      assert low <= ks[left] < ks[p];
    }
  }

  /** A round whose pivot lands on the middle. */
  lemma NarrowHit(kb: seq<int>, ks: seq<int>, left0: int, run: int, left: int, right: int,
                  right0: int, low: int, high: int, p: int)
    requires Narrowed(kb, left0, run, left, right, right0, low, high)
    requires Rearranged(kb, ks, left, right) && SplitAt(ks, left, right, p)
    ensures Settled(ks, left0, if left < p then p else run, p, right0, if left < p then ks[p] else low)
  {
    RearrangedKeepsBounds(kb, ks, left, right, low, high);
    if left < p {
      assert low <= ks[left] < ks[p];
    }
  }

  /** One round of the selection loop, for each place the pivot may land relative to the middle `mid`. */
  lemma Round(kb: seq<int>, ks: seq<int>, left0: int, run: int, left: int, right: int,
              right0: int, low: int, high: int, p: int, mid: int)
    requires Narrowed(kb, left0, run, left, right, right0, low, high) && left <= mid <= right
    requires Rearranged(kb, ks, left, right) && SplitAt(ks, left, right, p)
    ensures mid < p ==> Narrowed(ks, left0, run, left, p - 1, right0, low, ks[p])
    ensures p < mid ==> Narrowed(ks, left0, if left < p || low < ks[p] then p else run, p + 1, right, right0, ks[p], high)
    ensures p == mid ==> Settled(ks, left0, if left < p then p else run, p, right0, if left < p then ks[p] else low)
  {
    if mid < p {
      NarrowRight(kb, ks, left0, run, left, right, right0, low, high, p);
    } else if p < mid {
      NarrowLeft(kb, ks, left0, run, left, right, right0, low, high, p);
    } else {
      NarrowHit(kb, ks, left0, run, left, right, right0, low, high, p);
    }
  }

  /** A round of the selection loop stated on the nodes: `partition` rearranged `before` into `s` around p. */
  lemma PartitionRoundKeys<V>(before: seq<KDNode<V>>, s: seq<KDNode<V>>, depth: int, left0: int, run: int,
                          left: int, right: int, right0: int, low: int, high: int, p: int, mid: int)
    requires Narrowed(KeysOf(before, depth), left0, run, left, right, right0, low, high) && left <= mid <= right
    requires Permuted(before, s, left, right) && left <= p <= right
    requires forall k :: left <= k < p ==> Key(s[k], depth) < Key(s[p], depth)
    requires forall k :: p < k <= right ==> Key(s[p], depth) <= Key(s[k], depth)
    ensures mid < p ==> Narrowed(KeysOf(s, depth), left0, run, left, p - 1, right0, low, Key(s[p], depth))
    ensures p < mid ==> Narrowed(KeysOf(s, depth), left0, if left < p || low < Key(s[p], depth) then p else run,
                                 p + 1, right, right0, Key(s[p], depth), high)
    ensures p == mid ==> Settled(KeysOf(s, depth), left0, if left < p then p else run, p, right0,
                                 if left < p then Key(s[p], depth) else low)
  {
    KeysRearranged(before, s, left, right, depth);
    var ks := KeysOf(s, depth);
    assert SplitAt(ks, left, right, p);
    Round(KeysOf(before, depth), ks, left0, run, left, right, right0, low, high, p, mid);
  }

  /** The window has shrunk to the middle position alone. */
  lemma NarrowDone(ks: seq<int>, left0: int, run: int, m: int, right0: int, low: int, high: int)
    requires Narrowed(ks, left0, run, m, m, right0, low, high)
    ensures Settled(ks, left0, run, m, right0, low)
  {
  }

  /** A step of the shift: a key equal to the middle one before `m` lies in the run [run, mid). */
  lemma TieStep(ks: seq<int>, left0: int, run: int, mid: int, right0: int, low: int, m: int)
    requires Settled(ks, left0, run, mid, right0, low)
    requires left0 < m <= mid && (m < mid ==> run <= m)
    requires ks[m - 1] == ks[mid]
    ensures run <= m - 1
  {
  }

  /** Where the shift stops, everything before it is strictly below the middle key. */
  lemma TieDone(ks: seq<int>, left0: int, run: int, mid: int, right0: int, low: int, m: int)
    requires Settled(ks, left0, run, mid, right0, low)
    requires left0 <= m <= mid && (m < mid ==> run <= m)
    requires forall k :: m <= k <= mid ==> ks[k] == ks[mid]
    requires m == left0 || ks[m - 1] != ks[m]
    ensures forall k :: left0 <= k < m ==> ks[k] < ks[m]
    ensures forall k :: m < k <= right0 ==> ks[m] <= ks[k]
  {
    if run < m {
      assert ks[m - 1] == low;
    }
  }

  /**
   * The `partition` call of one round of the selection loop, with what it
   * does to the loop's state for each place the pivot may land relative to
   * the middle position `mid`.
   */
  method PartitionRound<V(==)>(a: array<KDNode<V>>, left: int, right: int, pivotIdx: int, depth: int,
                               ghost left0: int, ghost run: int, ghost right0: int, ghost low: int, ghost high: int,
                               ghost mid: int) returns (p: int)
    requires 0 <= left <= pivotIdx <= right < a.Length && left <= mid <= right
    requires Narrowed(KeysOf(a[..], depth), left0, run, left, right, right0, low, high)
    modifies a
    ensures left <= p <= right
    ensures Bag(a[..]) == Bag(old(a[..]))
    ensures forall k :: 0 <= k < a.Length && !(left <= k <= right) ==> a[k] == old(a[k])
    ensures mid < p ==> Narrowed(KeysOf(a[..], depth), left0, run, left, p - 1, right0, low, Key(a[p], depth))
    ensures p < mid ==> Narrowed(KeysOf(a[..], depth), left0, if left < p || low < Key(a[p], depth) then p else run,
                                 p + 1, right, right0, Key(a[p], depth), high)
    ensures p == mid ==> Settled(KeysOf(a[..], depth), left0, if left < p then p else run, p, right0,
                                 if left < p then Key(a[p], depth) else low)
  {
    ghost var before := a[..];
    p := Partition(a, left, right, pivotIdx, depth);
    PartitionRoundKeys(before, a[..], depth, left0, run, left, right, right0, low, high, p, mid);
  }

  /** The selection loop of `findMedian`: narrows the window until the middle position holds its key in sorted order. */
  method Narrow<V(==)>(a: array<KDNode<V>>, left0: int, right0: int, depth: int, pick: nat -> nat)
    returns (left: int, ghost run: int, ghost low: int)
    requires 0 <= left0 <= right0 < a.Length
    modifies a
    ensures left == left0 + (right0 - left0) / 2
    ensures Bag(a[..]) == Bag(old(a[..]))
    ensures forall k :: 0 <= k < a.Length && !(left0 <= k <= right0) ==> a[k] == old(a[k])
    ensures Settled(KeysOf(a[..], depth), left0, run, left, right0, low)
  {
    var medianPos := left0 + (right0 - left0) / 2;
    var right := right0;
    left := left0;
    ghost var high;
    run, low, high := left0, MinCoord, MaxCoord;
    NarrowStart(KeysOf(a[..], depth), left0, right0);
    var round := 0;
    var found := false;
    while left != right && !found
      invariant left <= medianPos <= right
      invariant Bag(a[..]) == Bag(old(a[..]))
      invariant forall k :: 0 <= k < a.Length && !(left0 <= k <= right0) ==> a[k] == old(a[k])
      invariant !found ==> Narrowed(KeysOf(a[..], depth), left0, run, left, right, right0, low, high)
      invariant found ==> left == medianPos && Settled(KeysOf(a[..], depth), left0, run, left, right0, low)
      decreases right - left, if found then 0 else 1
    {
      var pivotIdx := left + pick(round) % (right - left + 1);
      round := round + 1;
      pivotIdx := PartitionRound(a, left, right, pivotIdx, depth, left0, run, right0, low, high, medianPos);
      if medianPos == pivotIdx {
        if left < pivotIdx {
          run, low := pivotIdx, Key(a[pivotIdx], depth);
        }
        left := pivotIdx;
        found := true;
      } else if medianPos < pivotIdx {
        right := pivotIdx - 1;
        high := Key(a[pivotIdx], depth);
      } else {
        if left < pivotIdx || low < Key(a[pivotIdx], depth) {
          run := pivotIdx;
        }
        left := pivotIdx + 1;
        low := Key(a[pivotIdx], depth);
      }
    }
    if !found {
      NarrowDone(KeysOf(a[..], depth), left0, run, left, right0, low, high);
    }
  }

  /**
   * `findMedian(list, left, right, depth)`: rearranges the window and returns
   * the first index of the run of nodes whose key is the window's median
   * key, the key of the node at the middle position `left + (right - left) / 2`
   * in sorted order. Nodes before it are strictly below that key, nodes after
   * it are not below it.
   */
  method FindMedian<V(==)>(a: array<KDNode<V>>, left0: int, right0: int, depth: int, pick: nat -> nat) returns (m: int)
    requires 0 <= left0 <= right0 < a.Length
    modifies a
    ensures left0 <= m <= left0 + (right0 - left0) / 2
    ensures Bag(a[..]) == Bag(old(a[..]))
    ensures forall k :: 0 <= k < a.Length && !(left0 <= k <= right0) ==> a[k] == old(a[k])
    ensures forall k :: left0 <= k < m ==> Key(a[k], depth) < Key(a[m], depth)
    ensures forall k :: m <= k <= left0 + (right0 - left0) / 2 ==> Key(a[k], depth) == Key(a[m], depth)
    ensures forall k :: m < k <= right0 ==> Key(a[m], depth) <= Key(a[k], depth)
  {
    var medianPos := left0 + (right0 - left0) / 2;
    var left;
    ghost var run, low;
    left, run, low := Narrow(a, left0, right0, depth, pick);
    ghost var ks := KeysOf(a[..], depth);
    ghost var nodes := a[..];
    // Shift to the first node of the run of equal keys that ends at the middle.
    while left - 1 >= left0 && a[left].CompareTo(a[left - 1], depth) == 0
      invariant left0 <= left <= medianPos
      invariant forall k :: left <= k <= medianPos ==> ks[k] == ks[medianPos]
      invariant left < medianPos ==> run <= left
      modifies {}
      decreases left
    {
      assert ks[left] == Key(a[left], depth) && ks[left - 1] == Key(a[left - 1], depth);
      TieStep(ks, left0, run, medianPos, right0, low, left);
      left := left - 1;
    }
    assert a[..] == nodes;
    assert left0 < left ==> ks[left] == Key(a[left], depth) && ks[left - 1] == Key(a[left - 1], depth);
    TieDone(ks, left0, run, medianPos, right0, low, left);
    m := left;
  }
}
