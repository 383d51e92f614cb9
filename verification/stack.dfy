/** A LIFO stack over a vector it privately inherits (stack.h). */
module Stacks {
  import opened Wrappers

  class Stack<T> {
    /** The inherited vector: bottom of the stack first, top last. */
    var items: seq<T>

    constructor ()
      ensures items == []
    {
      items := [];
    }

    /** The number of stored elements, duplicates included. */
    function Size(): (n: nat)
      reads this
      ensures n == |multiset(items)|
    {
      |items|
    }

    predicate Empty()
      reads this
      ensures Empty() <==> Size() == 0
    {
      items == []
    }

    /** Puts `item` on top; everything below is left as it was. */
    method Push(item: T)
      modifies this
      ensures items == old(items) + [item]
      ensures Size() == old(Size()) + 1 && Top() == Success(item)
    {
      items := items + [item];
    }

    /** Removes the most recently pushed element; `Underflow` on an empty stack. */
    method Pop() returns (r: Outcome)
      modifies this
      ensures old(items) == [] ==> r == Fail(Underflow) && items == old(items)
      ensures old(items) != [] ==> r == Pass && items + [old(Top()).value] == old(items)
    {
      if Empty() {
        return Fail(Underflow);
      }
      items := items[..|items| - 1];
      r := Pass;
    }

    /** The most recently pushed element; `Underflow` on an empty stack. */
    function Top(): (r: Result<T>)
      reads this
      ensures r.Failure? <==> Empty()
      ensures r.Failure? ==> r.error == Underflow
      ensures r.Success? ==> r.value == items[|items| - 1]
    {
      if Empty() then Failure(Underflow) else Success(items[|items| - 1])
    }
  }
}
