# Verified model of three small containers

This project models, in Dafny, the three containers of a C++ data-structures
assignment and proves what they promise:

- `Heap<T, PComparator>` (heap.h): an m-ary priority heap stored level by
  level in a `std::vector`. `push` appends and trickles up; `pop` overwrites
  the root with the last element, shrinks the vector and trickles down;
  `top` reads the root. A comparator `comp(a, b)` says that `a` has priority
  over `b`. Module `Heaps`, file `heap.dfy`. The class `Heaps.Heap` keeps the
  vector as a `seq` field `data`, with the branching factor `m` and the
  comparator `comp` as constants.
- `Stack<T>` (stack.h): a LIFO adapter over a privately inherited vector,
  with underflow checks on `pop` and `top`. Module `Stacks`, file `stack.dfy`.
- `llpivot` (llrec.cpp): a recursive, destructive, stable partition of a
  singly linked list around a pivot. Module `LinkedLists`, file `llrec.dfy`.
  A `Node` class with an immutable `val` and a mutable `next` stands for the
  node type. A ghost sequence of nodes describes each chain (`IsList`).

Shared pieces: module `Wrappers` (`wrappers.dfy`) turns the two C++
exceptions into values (`InvalidArgument`, `Underflow`, inside `Result` and
`Outcome`). Module `Ordering` (`ordering.dfy`) defines the strict weak
ordering that a C++ comparator must satisfy.

The heap's guarantees need the comparator to be a strict weak ordering. That
means irreflexive, transitive, and with "neither outranks the other"
transitive. Transitivity alone is not enough. Take a strict partial order
where only `comp(c, y)` holds. Then a heap with `y` at the root, `z` below it
and `c` below `z` satisfies the parent/child rule, yet `c` outranks the root.
So `NewHeap`, the constructor and every heap operation assume
`StrictWeakOrder(comp)`, the contract the C++ standard library sets for
comparators.

`trickleUp` and `trickleDown` are tail-recursive in heap.h. Here they are
`while` loops that make the same comparisons and the same swaps.

`llpivot` prepends each node after the recursive call on the tail, so both
output lists keep the input order; `SideIsStable` proves this.

## Model

| member | source | states |
|---|---|---|
| `Heaps.Parent` | heap.h:114-116 | the parent index of a non-root node lies strictly before it, so climbing always ends at the root |
| `Heaps.Child` | heap.h:125-127 | the `k`-th child slot of `i` is `m*i+k+1`, which lies strictly after `i` whenever `m > 0`, so descending always moves toward the end of the vector |
| `Heaps.HeapOrdered` | heap.h:134-164 | the heap-order invariant: no non-root element has priority over its parent `(i-1)/m`; empty and one-element vectors satisfy it |
| `Heaps.ParentOfChild` | heap.h:114-127 | for every `k < m`, the parent of the `k`-th child slot of `i` is `i` |
| `Heaps.ChildrenOf` | heap.h:114-127 | a non-root node `c` has parent `i` if and only if `m*i+1 <= c <= m*i+m` (both directions) |
| `Heaps.Swap` | heap.h:142 | `std::swap` of two slots exchanges exactly those two elements, keeps the length and the multiset |
| `Heaps.RootDominates` | heap.h:55-65 | in a heap-ordered vector under a strict weak order, no element has priority over the root |
| `Heaps.AppendedClimbs` | heap.h:40-46 | appending to a heap breaks order at most between the new last slot and its parent |
| `Heaps.ClimbStep` | heap.h:138-143 | swapping a node with a parent it outranks moves the only possible violation one level up |
| `Heaps.ClimbDone` | heap.h:134-145 | the climb may stop at the root or where the parent is not outranked, and the vector is then heap-ordered |
| `Heaps.RootReplacedByLast` | heap.h:79-81 | overwriting the root with the last element and popping the back removes one copy of the old root, and order can then fail only below the root |
| `Heaps.SinkStep` | heap.h:161-163 | swapping a node with a best child that outranks it moves the only possible violation down to that child |
| `Heaps.SinkDone` | heap.h:155-159 | when the best child does not outrank the node, the vector is heap-ordered |
| `Heaps.LeafDone` | heap.h:153-159 | a node whose first child slot is past the end has no children, and the vector is heap-ordered |
| `Heaps.BestChildOfRange` | heap.h:172-199 | the scan's guarantee over the child slots `m*k+1 .. m*k+m` is the same as "no child of `k` outranks `c`" |
| `Heaps.NewHeap` | heap.h:19-27 | fails with `InvalidArgument` exactly when `m < 2`; otherwise yields a fresh empty valid heap with that `m` and comparator |
| `Heaps.Heap.constructor` | heap.h:19-23 | a heap with `m >= 2` starts empty and heap-ordered |
| `Heaps.Heap.Size` | heap.h:101-103 | `size()` is the number of stored elements, duplicates included |
| `Heaps.Heap.Empty` | heap.h:93-103 | `empty()` holds if and only if `size() == 0` |
| `Heaps.Heap.Top` | heap.h:55-65 | `Underflow` exactly when the heap is empty; otherwise returns `data[0]`, which no stored element outranks; the state does not change |
| `Heaps.Heap.Push` | heap.h:40-47 | size grows by one, the multiset gains exactly `item`, and the heap stays ordered |
| `Heaps.Heap.Pop` | heap.h:72-87 | on empty: `Underflow`, nothing changes; otherwise size drops by one, exactly one copy of the old root leaves the multiset, order is kept, and the new root does not outrank the old one (pops come out in priority order) |
| `Heaps.Heap.TrickleUp` | heap.h:134-145 | from the climbing state, ends heap-ordered with the same multiset and length; the slots after `index` are untouched |
| `Heaps.Heap.TrickleDown` | heap.h:152-164 | from the sinking state, ends heap-ordered with the same multiset and length; the slots before `index` are untouched |
| `Heaps.Heap.GetHighestPriorityChild` | heap.h:172-199 | returns `size()` if and only if `m*i+1 >= size()`; otherwise a slot in `[m*i+1, min(m*i+m, size-1)]` that no existing child outranks and that outranks every child to its left (the leftmost best child) |
| `Ordering.NoPriorityTransitive` | heap.h:15-17 | under a strict weak order, "does not have priority over" is transitive |
| `Stacks.Stack.constructor` | stack.h:13 | a new stack is empty |
| `Stacks.Stack.Size` | stack.h:21-23 | `size()` is the number of stored elements, duplicates included |
| `Stacks.Stack.Empty` | stack.h:17-23 | `empty()` holds if and only if `size() == 0` |
| `Stacks.Stack.Push` | stack.h:25-27 | the item goes on top of the unchanged rest; size grows by one and `top()` returns the item |
| `Stacks.Stack.Pop` | stack.h:29-34 | on empty: `Underflow`, nothing changes; otherwise exactly the most recently pushed element is removed and the rest is unchanged (LIFO) |
| `Stacks.Stack.Top` | stack.h:36-41 | `Underflow` exactly when the stack is empty; otherwise the most recently pushed element; never changes the stack |
| `LinkedLists.Side` | llrec.cpp:26-33 | the nodes of a side are exactly the input nodes that belong there (`val <= pivot` for `smaller`, `val > pivot` for `larger`), and there are no more of them than input nodes |
| `LinkedLists.SidesSplit` | llrec.cpp:17-34 | the two sides' lengths add up to the input length, their multisets add up to the input's, and each input node is on exactly one side |
| `LinkedLists.SideIsStable` | llrec.cpp:22-34 | each side is an order-preserving subsequence of the input |
| `LinkedLists.TailIsList` | llrec.cpp:17-20 | after the head node, `head->next` starts a well-formed list of the remaining nodes |
| `LinkedLists.PrependIsList` | llrec.cpp:28-33 | linking a node that is not in a list in front of that list gives a well-formed list one longer |
| `LinkedLists.LLPivot` | llrec.cpp:7-35 | `head` ends null; `smaller` is a well-formed chain of exactly the input nodes with `val <= pivot` and `larger` of those with `val > pivot`, each in input order. An empty input gives two null lists; no node outside the input is touched |

## Left out

- Integer widths: `size_t` and `int` are modelled as unbounded naturals. The
  unsigned wrap of `parent(0)` is never reached because `trickleUp` returns at
  index 0. Overflow of `m * index + k + 1` on vectors near `SIZE_MAX` is not
  modelled.
- Element types: the heap's element type must not be a class (reference)
  type. The strict-weak-order quantifiers over `T` need that bound. The C++
  template also accepts pointer element types such as `Heap<Node*, Cmp>`.
- C++ exceptions: these are returned as `Failure(...)` / `Fail(...)` values,
  not propagated. `NewHeap` models the throwing constructor. The class
  constructor itself requires `m >= 2`.
- Comparator genericity: `PComparator` is modelled as a function value
  `(T, T) -> bool` that must be a strict weak ordering. heap.h does not check
  this. With a comparator that is not a strict weak order, the C++ code still
  terminates and keeps the stored elements, but `top` need not be the
  highest-priority element. The model assumes a strict weak order for every
  heap operation, so it says nothing about that case. The
  default arguments (`m = 2`, `std::less<T>`) are not modelled, because there
  is no default comparator for an arbitrary `T`.
- `top()` returns a const reference in C++. Here it returns the value.
- Memory: `new`/`delete`, destructors, vector capacity and reallocation are
  not modelled, and neither are `dealloc` and `readList` from llrec-test.cpp.
- The `Node` struct and `llfilter` live in llrec.h, which is not part of this
  model. `Node` is re-declared here with the two fields `llpivot` uses and a
  constructor like `new Node(v, NULL)` in llrec-test.cpp.
  `llfilter` is not modelled because its body is not available.
- `llpivot` takes `smaller` and `larger` as in/out references but never reads
  their prior values, so the model treats them as outputs only.
- The console test drivers stack_test.cpp and llrec-test.cpp are not
  modelled. The contracts above cover what stack_test.cpp checks and what
  llrec-test.cpp:101-108 prints about `llpivot`. Its `llfilter` part
  (llrec-test.cpp:120-127) is not covered.
