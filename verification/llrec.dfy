/** Destructive, stable partition of a singly linked list around a pivot (llrec.cpp). */
module LinkedLists {

  /** A list node: its value never changes, its link is rewired. */
  class Node {
    const val: int
    var next: Node?

    constructor (val: int, next: Node?)
      ensures this.val == val && this.next == next
    {
      this.val := val;
      this.next := next;
    }
  }

  /** The node that should follow `ns[i]`: the next one, or null after the last. */
  ghost function Successor(ns: seq<Node>, i: nat): Node? {
    if i + 1 < |ns| then ns[i + 1] else null
  }

  /** `head` starts a null-terminated chain that visits exactly the nodes `ns`, in order. */
  ghost predicate IsList(head: Node?, ns: seq<Node>)
    reads ns
  {
    && (forall i, j | 0 <= i < j < |ns| :: ns[i] != ns[j])
    && head == (if ns == [] then null else ns[0])
    && forall i | 0 <= i < |ns| :: ns[i].next == Successor(ns, i)
  }

  /** Whether node `n` belongs in the `smaller` list (`small`) or the `larger` one (`!small`). */
  predicate GoesTo(n: Node, pivot: int, small: bool) {
    (n.val <= pivot) == small
  }

  /** The nodes of `ns` bound for one side, in their original order. */
  ghost function Side(ns: seq<Node>, pivot: int, small: bool): (r: seq<Node>)
    ensures forall n | n in r :: n in ns && GoesTo(n, pivot, small)
    ensures forall n | n in ns && GoesTo(n, pivot, small) :: n in r
    ensures |r| <= |ns|
  {
    if ns == [] then []
    else if GoesTo(ns[0], pivot, small) then [ns[0]] + Side(ns[1..], pivot, small)
    else Side(ns[1..], pivot, small)
  }

  /** `r` is `s` with some elements dropped and the rest in their original order. */
  ghost predicate Embeds<T>(r: seq<T>, s: seq<T>) {
    exists idx: seq<nat> ::
      && |idx| == |r|
      && (forall i | 0 <= i < |idx| :: idx[i] < |s| && r[i] == s[idx[i]])
      && (forall i, j | 0 <= i < j < |idx| :: idx[i] < idx[j])
  }

  /** The two sides together hold every input node exactly once: none created, none lost. */
  lemma {:induction false} SidesSplit(ns: seq<Node>, pivot: int)
    ensures |Side(ns, pivot, true)| + |Side(ns, pivot, false)| == |ns|
    ensures multiset(Side(ns, pivot, true)) + multiset(Side(ns, pivot, false)) == multiset(ns)
    ensures forall n | n in ns :: (n in Side(ns, pivot, true)) != (n in Side(ns, pivot, false))
  {
    if ns != [] {
      SidesSplit(ns[1..], pivot);
      assert ns == [ns[0]] + ns[1..];
    }
  }

  /** Each side keeps the relative order of the input: the partition is stable. */
  lemma {:induction false} SideIsStable(ns: seq<Node>, pivot: int, small: bool)
    ensures Embeds(Side(ns, pivot, small), ns)
  {
    if ns == [] {
      var idx: seq<nat> := [];
      assert |idx| == |Side(ns, pivot, small)|;
    } else {
      SideIsStable(ns[1..], pivot, small);
      assert ns == [ns[0]] + ns[1..];
      if GoesTo(ns[0], pivot, small) {
        EmbedsBoth(Side(ns[1..], pivot, small), ns[1..], ns[0]);
      } else {
        EmbedsSkip(Side(ns[1..], pivot, small), ns[1..], ns[0]);
      }
    }
  }

  /** Dropping an extra leading element keeps an embedding. */
  lemma EmbedsSkip<T>(r: seq<T>, s: seq<T>, x: T)
    requires Embeds(r, s)
    ensures Embeds(r, [x] + s)
  {
    var idx: seq<nat> :| |idx| == |r|
      && (forall i | 0 <= i < |idx| :: idx[i] < |s| && r[i] == s[idx[i]])
      && (forall i, j | 0 <= i < j < |idx| :: idx[i] < idx[j]);
    var shifted: seq<nat> := seq(|idx|, i requires 0 <= i < |idx| => idx[i] + 1);
    assert forall i | 0 <= i < |shifted| :: shifted[i] < |[x] + s| && r[i] == ([x] + s)[shifted[i]];
  }

  /** Keeping a common leading element keeps an embedding. */
  lemma EmbedsBoth<T>(r: seq<T>, s: seq<T>, x: T)
    requires Embeds(r, s)
    ensures Embeds([x] + r, [x] + s)
  {
    var idx: seq<nat> :| |idx| == |r|
      && (forall i | 0 <= i < |idx| :: idx[i] < |s| && r[i] == s[idx[i]])
      && (forall i, j | 0 <= i < j < |idx| :: idx[i] < idx[j]);
    var grown: seq<nat> := [0] + seq(|idx|, i requires 0 <= i < |idx| => idx[i] + 1);
    assert forall i | 0 <= i < |grown| :: grown[i] < |[x] + s| && ([x] + r)[i] == ([x] + s)[grown[i]] by {
      forall i | 0 <= i < |grown| ensures grown[i] < |[x] + s| && ([x] + r)[i] == ([x] + s)[grown[i]] {
        if 0 < i {
          assert ([x] + r)[i] == r[i - 1];
        }
      }
    }
    assert forall i, j | 0 <= i < j < |grown| :: grown[i] < grown[j];
  }

  /** The chain after the first node describes the rest of the nodes. */
  lemma TailIsList(ns: seq<Node>)
    requires ns != [] && IsList(ns[0], ns)
    ensures IsList(ns[0].next, ns[1..])
  {
    assert ns[0].next == Successor(ns, 0);
    forall i | 0 <= i < |ns[1..]| ensures ns[1..][i].next == Successor(ns[1..], i) {
      assert ns[1..][i] == ns[i + 1];
      assert ns[i + 1].next == Successor(ns, i + 1);
    }
  }

  /** A node that links to a list, and is not in it, heads the longer list. */
  lemma PrependIsList(n: Node, ns: seq<Node>)
    requires IsList(n.next, ns) && n !in ns
    ensures IsList(n, [n] + ns)
  {
    var t := [n] + ns;
    forall i | 0 <= i < |t| ensures t[i].next == Successor(t, i) {
      if 0 < i {
        assert t[i] == ns[i - 1];
        assert ns[i - 1].next == Successor(ns, i - 1);
      }
    }
  }

  /**
   * Splits the list at `head` into the nodes with `val <= pivot` (`smaller`) and the rest
   * (`larger`), relinking the nodes themselves. The C++ reference parameter `head` ends up
   * null; here its final value is `rest`. The prior values of `smaller` and `larger` are
   * never read, so they are outputs only.
   */
  method LLPivot(head: Node?, ghost ns: seq<Node>, pivot: int) returns (rest: Node?, smaller: Node?, larger: Node?)
    requires IsList(head, ns)
    modifies ns
    ensures rest == null
    ensures IsList(smaller, Side(ns, pivot, true))
    ensures IsList(larger, Side(ns, pivot, false))
    decreases |ns|
  {
    if head == null {
      return null, null, null;
    }
    var current := head;
    TailIsList(ns);
    rest, smaller, larger := LLPivot(current.next, ns[1..], pivot);
    ghost var small, large := Side(ns[1..], pivot, true), Side(ns[1..], pivot, false);
    assert current !in ns[1..];
    if current.val <= pivot {
      current.next := smaller;
      assert IsList(larger, large);
      PrependIsList(current, small);
      smaller := current;
    } else {
      current.next := larger;
      assert IsList(smaller, small);
      PrependIsList(current, large);
      larger := current;
    }
  }
}
