/** A thread: a current cell `ip` walking the memory ring in one
    direction, with a private fixed-capacity stack. */
module Threads {

  class Thread {
    var ip: int
    /** Fixed at construction: the stack array and the direction. */
    const stack: array<int>
    const isReversed: bool
    /** The number of values on the stack. */
    var stackTop: int
    /** Cycles this thread has been stepped. */
    var age: int

    constructor (ip: int, isReversed: bool, maxStackSize: nat)
      ensures this.ip == ip && this.isReversed == isReversed
      ensures stackTop == 0 && age == 0
      ensures stack.Length == maxStackSize && fresh(stack)
      ensures Valid() && Contents() == []
    {
      this.ip := ip;
      stack := new int[maxStackSize];
      stackTop := 0;
      age := 0;
      this.isReversed := isReversed;
    }

    ghost predicate Valid()
      reads this
    {
      0 <= stackTop <= stack.Length
    }

    /** The values on the stack, bottom first. */
    ghost function Contents(): seq<int>
      reads this, stack
      requires Valid()
    {
      stack[..stackTop]
    }
  }
}
