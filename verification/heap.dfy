/**
 * An m-ary priority heap kept as an implicit tree in a growable vector (heap.h).
 * Node `i` has its parent at `(i - 1) / m` and its children at `m * i + 1 .. m * i + m`.
 */
module Heaps {
  import opened Wrappers
  import opened Ordering

  // ---------------------------------------------------------------------------
  // Index arithmetic
  // ---------------------------------------------------------------------------

  /** Index of the parent of node `i`; only asked of non-root nodes. */
  function Parent(i: nat, m: nat): (p: nat)
    requires 0 < i && 0 < m
    ensures p < i
  {
    var p := (i - 1) / m;
    MulMonotone(p, 1, m);
    p
  }

  /** Index of the `k`-th child (counting from 0) of node `i`. */
  function Child(i: nat, k: nat, m: nat): (c: nat)
    ensures 0 < m ==> i < c
  {
    var c := m * i + k + 1;
    if 0 < m then MulMonotone(i, 1, m); c else c
  }

  /** Every child slot of `i` names `i` as its parent. */
  lemma ParentOfChild(i: nat, k: nat, m: nat)
    requires 0 < m && k < m
    ensures Parent(Child(i, k, m), m) == i
  {
    DivisionOfBlock(i, k, m);
  }

  /** A non-root node is exactly one of the `m` child slots of its parent. */
  lemma ChildrenOf(c: nat, i: nat, m: nat)
    requires 0 < c && 0 < m
    ensures Parent(c, m) == i <==> Child(i, 0, m) <= c <= Child(i, m - 1, m)
  {
    var p, k := (c - 1) / m, (c - 1) % m;
    assert c == Child(p, k, m);
    if Child(i, 0, m) <= c <= Child(i, m - 1, m) {
      DivisionOfBlock(i, c - 1 - m * i, m);
    }
  }

  /** `(m * i + k) / m == i` for `k < m`. */
  lemma DivisionOfBlock(i: nat, k: nat, m: nat)
    requires 0 < m && k < m
    ensures (m * i + k) / m == i
  {
    var q, r := (m * i + k) / m, (m * i + k) % m;
    assert m * q + r == m * i + k;
    if q < i {
      MulMonotone(m, q + 1, i);
    } else if q > i {
      MulMonotone(m, i + 1, q);
    }
  }

  lemma {:induction false} MulMonotone(m: nat, a: nat, b: nat)
    requires a <= b
    ensures m * a <= m * b
    decreases b - a
  {
    if a < b {
      MulMonotone(m, a + 1, b);
    }
  }

  // ---------------------------------------------------------------------------
  // Heap order
  // ---------------------------------------------------------------------------

  /** No node has priority over its parent. Empty and one-element vectors are heaps. */
  ghost predicate HeapOrdered<T>(s: seq<T>, m: nat, comp: (T, T) -> bool)
    ensures 0 < m && |s| <= 1 ==> HeapOrdered(s, m, comp)
  {
    0 < m && forall i | 0 < i < |s| :: !comp(s[i], s[Parent(i, m)])
  }

  /**
   * The state while an element climbs from `k`: heap order holds except perhaps between
   * `k` and its parent, and the children of `k` do not outrank the parent of `k`.
   */
  ghost predicate OrderedAboveExcept<T>(s: seq<T>, m: nat, comp: (T, T) -> bool, k: nat) {
    0 < m && k < |s|
    && (forall i | 0 < i < |s| && i != k :: !comp(s[i], s[Parent(i, m)]))
    && (0 < k ==> forall c | 0 < c < |s| && Parent(c, m) == k :: !comp(s[c], s[Parent(k, m)]))
  }

  /**
   * The state while an element sinks from `k`: heap order holds except perhaps between
   * `k` and its children, and the children of `k` do not outrank the parent of `k`.
   */
  ghost predicate OrderedBelowExcept<T>(s: seq<T>, m: nat, comp: (T, T) -> bool, k: nat) {
    0 < m && k < |s|
    && (forall i | 0 < i < |s| && Parent(i, m) != k :: !comp(s[i], s[Parent(i, m)]))
    && (0 < k ==> forall c | 0 < c < |s| && Parent(c, m) == k :: !comp(s[c], s[Parent(k, m)]))
  }

  /** `std::swap` of two slots: the same elements, two of them exchanged. */
  function Swap<T>(s: seq<T>, i: nat, j: nat): (r: seq<T>)
    requires i < |s| && j < |s|
    ensures |r| == |s| && r[i] == s[j] && r[j] == s[i]
    ensures forall n | 0 <= n < |s| && n != i && n != j :: r[n] == s[n]
    ensures multiset(r) == multiset(s)
  {
    s[i := s[j]][j := s[i]]
  }

  /** With a strict weak order, no element of a heap has priority over the root. */
  lemma {:induction false} RootDominates<T(!new)>(s: seq<T>, m: nat, comp: (T, T) -> bool, j: nat)
    requires StrictWeakOrder(comp) && HeapOrdered(s, m, comp) && j < |s|
    ensures !comp(s[j], s[0])
    decreases j
  {
    if j > 0 {
      var p := Parent(j, m);
      RootDominates(s, m, comp, p);
      NoPriorityTransitive(comp, s[j], s[p], s[0]);
    }
  }

  /** Appending to a heap leaves the new last slot as the only place order may fail. */
  lemma AppendedClimbs<T>(s: seq<T>, m: nat, comp: (T, T) -> bool, x: T)
    requires HeapOrdered(s, m, comp)
    ensures OrderedAboveExcept(s + [x], m, comp, |s|)
  {
    var t := s + [x];
    forall i | 0 < i < |t| && i != |s| ensures !comp(t[i], t[Parent(i, m)]) {
      assert t[i] == s[i] && t[Parent(i, m)] == s[Parent(i, m)];
    }
  }

  /** One step of the climb: swapping `k` with a parent it outranks moves the exception up. */
  lemma ClimbStep<T(!new)>(s: seq<T>, m: nat, comp: (T, T) -> bool, k: nat)
    requires StrictWeakOrder(comp) && OrderedAboveExcept(s, m, comp, k)
    requires 0 < k && comp(s[k], s[Parent(k, m)])
    ensures OrderedAboveExcept(Swap(s, k, Parent(k, m)), m, comp, Parent(k, m))
  {
    var p := Parent(k, m);
    var t := Swap(s, k, p);
    forall i | 0 < i < |t| && i != p ensures !comp(t[i], t[Parent(i, m)]) {
      if i == k {
        assert !comp(s[p], s[k]);
      } else if Parent(i, m) == k {
        assert t[i] == s[i] && t[k] == s[p];
      }
    }
    if 0 < p {
      var g := Parent(p, m);
      forall c | 0 < c < |t| && Parent(c, m) == p ensures !comp(t[c], t[g]) {
        assert t[g] == s[g];
        if c != k {
          NoPriorityTransitive(comp, s[c], s[p], s[g]);
        }
      }
    }
  }

  /** The climb ends at the root, or where the parent is not outranked. */
  lemma ClimbDone<T>(s: seq<T>, m: nat, comp: (T, T) -> bool, k: nat)
    requires OrderedAboveExcept(s, m, comp, k)
    requires k == 0 || !comp(s[k], s[Parent(k, m)])
    ensures HeapOrdered(s, m, comp)
  {
  }

  /**
   * Overwriting the root with the last element and dropping the last slot removes one copy of
   * the root, and leaves the root as the only place order may fail.
   */
  lemma RootReplacedByLast<T>(s: seq<T>, m: nat, comp: (T, T) -> bool)
    requires HeapOrdered(s, m, comp) && 0 < |s|
    ensures var t := s[0 := s[|s| - 1]][..|s| - 1];
      && multiset(t) == multiset(s) - multiset{s[0]}
      && (0 < |t| ==> OrderedBelowExcept(t, m, comp, 0))
  {
    var t := s[0 := s[|s| - 1]][..|s| - 1];
    if 1 < |s| {
      assert s == [s[0]] + s[1..|s| - 1] + [s[|s| - 1]];
      assert t == [s[|s| - 1]] + s[1..|s| - 1];
    }
  }

  /** `c` is a child of `k` that no existing sibling outranks. */
  ghost predicate IsBestChild<T>(s: seq<T>, m: nat, comp: (T, T) -> bool, k: nat, c: nat) {
    0 < m && 0 < c < |s| && Parent(c, m) == k
    && forall d | 0 < d < |s| && Parent(d, m) == k :: !comp(s[d], s[c])
  }

  /** One step of the descent: swapping `k` with a best child that outranks it moves the exception down. */
  lemma SinkStep<T(!new)>(s: seq<T>, m: nat, comp: (T, T) -> bool, k: nat, c: nat)
    requires StrictWeakOrder(comp) && OrderedBelowExcept(s, m, comp, k)
    requires IsBestChild(s, m, comp, k, c) && comp(s[c], s[k])
    ensures OrderedBelowExcept(Swap(s, k, c), m, comp, c)
  {
    var t := Swap(s, k, c);
    forall i | 0 < i < |t| && Parent(i, m) != c ensures !comp(t[i], t[Parent(i, m)]) {
      if i == c {
        assert !comp(s[k], s[c]);
      } else if Parent(i, m) == k {
        assert t[i] == s[i] && t[k] == s[c];
      } else if i == k {
        assert t[Parent(k, m)] == s[Parent(k, m)];
      }
    }
    forall d | 0 < d < |t| && Parent(d, m) == c ensures !comp(t[d], t[k]) {
      assert d != k && d != c;
    }
  }

  /** The descent ends at a leaf, or where the best child does not outrank the node. */
  lemma SinkDone<T(!new)>(s: seq<T>, m: nat, comp: (T, T) -> bool, k: nat, c: nat)
    requires StrictWeakOrder(comp) && OrderedBelowExcept(s, m, comp, k)
    requires IsBestChild(s, m, comp, k, c) && !comp(s[c], s[k])
    ensures HeapOrdered(s, m, comp)
  {
    forall i | 0 < i < |s| && Parent(i, m) == k ensures !comp(s[i], s[k]) {
      NoPriorityTransitive(comp, s[i], s[c], s[k]);
    }
  }

  /** A node without children in the vector has nothing to sink past. */
  lemma LeafDone<T>(s: seq<T>, m: nat, comp: (T, T) -> bool, k: nat)
    requires OrderedBelowExcept(s, m, comp, k) && Child(k, 0, m) >= |s|
    ensures HeapOrdered(s, m, comp)
  {
    forall i | 0 < i < |s| ensures Parent(i, m) != k {
      ChildrenOf(i, k, m);
    }
  }

  // ---------------------------------------------------------------------------
  // The heap
  // ---------------------------------------------------------------------------

  /**
   * Builds a heap with branching factor `m`, failing with `InvalidArgument` when `m < 2`
   * as the C++ constructor throws `std::invalid_argument`.
   */
  method NewHeap<T(!new)>(m: int, comp: (T, T) -> bool) returns (r: Result<Heap<T>>)
    requires StrictWeakOrder(comp)
    ensures r.Failure? <==> m < 2
    ensures r.Failure? ==> r.error == InvalidArgument
    ensures r.Success? ==> fresh(r.value) && r.value.Valid() && r.value.data == []
    ensures r.Success? ==> r.value.m == m && r.value.comp == comp
  {
    if m < 2 {
      return Failure(InvalidArgument);
    }
    var h := new Heap(m, comp);
    return Success(h);
  }

  class Heap<T(!new)> {
    /** The branching factor. */
    const m: nat
    /** `comp(a, b)` holds when `a` has priority over `b`. */
    const comp: (T, T) -> bool
    /** The tree in level order. */
    var data: seq<T>

    /** The fixed configuration every operation relies on. */
    ghost predicate Configured() {
      2 <= m && StrictWeakOrder(comp)
    }

    ghost predicate Valid()
      reads this
    {
      Configured() && HeapOrdered(data, m, comp)
    }

    constructor (m: nat, comp: (T, T) -> bool)
      requires 2 <= m && StrictWeakOrder(comp)
      ensures Valid() && data == [] && this.m == m && this.comp == comp
    {
      this.m := m;
      this.comp := comp;
      data := [];
    }

    /** The number of stored elements, duplicates included. */
    function Size(): (n: nat)
      reads this
      ensures n == |multiset(data)|
    {
      |data|
    }

    predicate Empty()
      reads this
      ensures Empty() <==> Size() == 0
    {
      data == []
    }

    /** The root, which no stored element outranks; `Underflow` on an empty heap. */
    function Top(): (r: Result<T>)
      reads this
      requires Valid()
      ensures r.Failure? <==> Empty()
      ensures r.Failure? ==> r.error == Underflow
      ensures r.Success? ==> r.value == data[0] && forall j | 0 <= j < |data| :: !comp(data[j], r.value)
    {
      if Empty() then
        Failure(Underflow)
      else
        AllBelowRoot(data, m, comp);
        Success(data[0])
    }

    /** Inserts `item`: appended at the end, then moved up while it outranks its parent. */
    method Push(item: T)
      requires Valid()
      modifies this
      ensures Valid()
      ensures |data| == |old(data)| + 1
      ensures multiset(data) == multiset(old(data)) + multiset{item}
    {
      AppendedClimbs(data, m, comp, item);
      data := data + [item];
      TrickleUp(|data| - 1);
    }

    /**
     * Removes the root: the last element overwrites it and sinks. `Underflow` on an empty heap.
     * The new root never outranks the removed one, so repeated pops come out in priority order.
     */
    method Pop() returns (r: Outcome)
      requires Valid()
      modifies this
      ensures Valid()
      ensures old(|data|) == 0 ==> r == Fail(Underflow) && data == old(data)
      ensures old(|data|) > 0 ==> r == Pass && |data| == old(|data|) - 1
      ensures old(|data|) > 0 ==> multiset(data) == multiset(old(data)) - multiset{old(data[0])}
      ensures old(|data|) > 0 && |data| > 0 ==> !comp(data[0], old(data[0]))
    {
      if Empty() {
        return Fail(Underflow);
      }
      ghost var before := data;
      RootReplacedByLast(data, m, comp);
      data := data[0 := data[|data| - 1]];
      data := data[..|data| - 1];
      if !Empty() {
        TrickleDown(0);
        assert data[0] in multiset(data);
        assert multiset(data) <= multiset(before);
        ghost var j :| 0 <= j < |before| && before[j] == data[0];
        RootDominates(before, m, comp, j);
      }
      r := Pass;
    }

    /** Moves the element at `index` up while it outranks its parent (the recursion of heap.h as a loop). */
    method TrickleUp(index: nat)
      requires Configured() && OrderedAboveExcept(data, m, comp, index)
      modifies this
      ensures HeapOrdered(data, m, comp)
      ensures |data| == |old(data)| && multiset(data) == multiset(old(data))
      ensures forall j | index < j < |data| :: data[j] == old(data[j])
    {
      var k: nat := index;
      while 0 < k && comp(data[k], data[Parent(k, m)])
        invariant k <= index && OrderedAboveExcept(data, m, comp, k)
        invariant |data| == |old(data)| && multiset(data) == multiset(old(data))
        invariant forall j | index < j < |data| :: data[j] == old(data[j])
        decreases k
      {
        var p := Parent(k, m);
        ClimbStep(data, m, comp, k);
        data := Swap(data, k, p);
        k := p;
      }
      ClimbDone(data, m, comp, k);
    }

    /** Moves the element at `index` down while its best child outranks it (the recursion of heap.h as a loop). */
    method TrickleDown(index: nat)
      requires Configured() && OrderedBelowExcept(data, m, comp, index)
      modifies this
      ensures HeapOrdered(data, m, comp)
      ensures |data| == |old(data)| && multiset(data) == multiset(old(data))
      ensures forall j | 0 <= j < index :: data[j] == old(data[j])
    {
      var k := index;
      while true
        invariant index <= k && OrderedBelowExcept(data, m, comp, k)
        invariant |data| == |old(data)| && multiset(data) == multiset(old(data))
        invariant forall j | 0 <= j < index :: data[j] == old(data[j])
        decreases |data| - k
      {
        var c := GetHighestPriorityChild(k);
        if c == |data| {
          LeafDone(data, m, comp, k);
          return;
        }
        BestChildOfRange(data, m, comp, k, c);
        if !comp(data[c], data[k]) {
          SinkDone(data, m, comp, k, c);
          return;
        }
        SinkStep(data, m, comp, k, c);
        data := Swap(data, k, c);
        k := c;
      }
    }

    /**
     * The leftmost child of `index` that no existing sibling outranks, or `|data|` when `index`
     * has no child in the vector.
     */
    method GetHighestPriorityChild(index: nat) returns (r: nat)
      requires Configured()
      ensures r <= |data|
      ensures r == |data| <==> Child(index, 0, m) >= |data|
      ensures r < |data| ==> Child(index, 0, m) <= r <= Child(index, m - 1, m)
      ensures r < |data| ==>
        forall c | Child(index, 0, m) <= c <= Child(index, m - 1, m) && c < |data| :: !comp(data[c], data[r])
      ensures r < |data| ==> forall c | Child(index, 0, m) <= c < r :: comp(data[r], data[c])
    {
      var first := Child(index, 0, m);
      if first >= |data| {
        return |data|;
      }
      r := first;
      var i := 1;
      while i < m
        invariant 1 <= i <= m
        invariant first <= r < |data| && r < Child(index, i, m)
        invariant forall c | first <= c < Child(index, i, m) && c < |data| :: !comp(data[c], data[r])
        invariant forall c | first <= c < r :: comp(data[r], data[c])
      {
        var next := Child(index, i, m);
        if next >= |data| {
          break;
        }
        if comp(data[next], data[r]) {
          forall c | first <= c < next ensures comp(data[next], data[c]) {
            NoPriorityTransitive(comp, data[next], data[c], data[r]);
          }
          r := next;
        }
        i := i + 1;
      }
    }
  }

  /** Every stored element is outranked-or-tied by the root. */
  lemma AllBelowRoot<T(!new)>(s: seq<T>, m: nat, comp: (T, T) -> bool)
    requires StrictWeakOrder(comp) && HeapOrdered(s, m, comp)
    ensures forall j | 0 <= j < |s| :: !comp(s[j], s[0])
  {
    forall j | 0 <= j < |s| ensures !comp(s[j], s[0]) {
      RootDominates(s, m, comp, j);
    }
  }

  /** The range form of "best child" that the scan establishes gives the parent form the descent uses. */
  lemma BestChildOfRange<T>(s: seq<T>, m: nat, comp: (T, T) -> bool, k: nat, c: nat)
    requires 0 < m && Child(k, 0, m) <= c <= Child(k, m - 1, m) && c < |s|
    requires forall d | Child(k, 0, m) <= d <= Child(k, m - 1, m) && d < |s| :: !comp(s[d], s[c])
    ensures IsBestChild(s, m, comp, k, c)
  {
    ChildrenOf(c, k, m);
    forall d | 0 < d < |s| && Parent(d, m) == k ensures !comp(s[d], s[c]) {
      ChildrenOf(d, k, m);
    }
  }
}
