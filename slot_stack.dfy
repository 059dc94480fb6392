/**
 * avl_stack of src/c-avl.c: a LIFO of free arena slot indices kept in a
 * fixed-size array, of which the first tail entries are in use.
 */
module FreeSlots {

  class SlotStack {
    /** The array the stack owns; its length is the stack's size field. */
    const items: array<nat>
    var tail: nat

    ghost predicate Valid()
      reads this
    {
      tail <= items.Length
    }

    /** The stack from bottom to top. */
    ghost function Contents(): seq<nat>
      reads this, items
      requires Valid()
    {
      items[..tail]
    }

    /** A stack of the given size with nothing in it. */
    constructor (size: nat)
      ensures Valid() && Contents() == [] && items.Length == size && fresh(items)
    {
      items := new nat[size];
      tail := 0;
    }

    /**
     * __avl_stack_pop: -1 and no change on an empty stack, otherwise 0 and
     * the most recently pushed index, which leaves the stack.
     */
    method Pop() returns (r: int, e: nat)
      requires Valid()
      modifies this
      ensures Valid()
      ensures old(tail) == 0 ==> r == -1 && e == 0 && tail == 0
      ensures old(tail) > 0 ==>
        r == 0 && old(Contents()) == Contents() + [e] && e == old(items[tail - 1])
    {
      if tail == 0 {
        return -1, 0;
      }
      tail := tail - 1;
      return 0, items[tail];
    }

    /** __avl_stack_push: the index goes on top. */
    method Push(e: nat)
      requires Valid() && tail < items.Length
      modifies this, items
      ensures Valid() && Contents() == old(Contents()) + [e]
      ensures items[..] == old(items[..])[old(tail) := e]
    {
      items[tail] := e;
      tail := tail + 1;
    }

    /** __avl_stack_clear: the stack becomes empty. */
    method Clear()
      requires Valid()
      modifies this
      ensures Valid() && Contents() == []
    {
      tail := 0;
    }
  }
}
