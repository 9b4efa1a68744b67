/**
 * CTL::Stack<T>: a bounded stack over a fixed array of `size` cells;
 * `currentElem` counts the occupied cells, bottom first.
 */
module Stacks {

  class Stack<T> {
    const size: int
    var currentElem: int
    const stack: array<T>
    /** T(): what pop and peek return on an empty stack. */
    const Default: T

    ghost predicate Valid()
      reads this, stack
    {
      stack.Length == size && 0 <= currentElem <= size
    }

    /** The elements bottom to top. */
    ghost function Contents(): seq<T>
      reads this, stack
      requires Valid()
    {
      stack[..currentElem]
    }

    constructor (size: int, zero: T)
      requires size >= 0
      ensures Valid() && fresh(stack)
      ensures this.size == size && currentElem == 0 && Contents() == [] && Default == zero
    {
      this.size := size;
      currentElem := 0;
      stack := new T[size](_ => zero);
      Default := zero;
    }

    /** isEmpty: currentElem == 0. */
    function IsEmpty(): (r: bool)
      reads this, stack
      requires Valid()
      ensures r <==> Contents() == []
    {
      currentElem == 0
    }

    /** isFull: currentElem == size. */
    function IsFull(): (r: bool)
      reads this, stack
      requires Valid()
      ensures r <==> |Contents()| == size
    {
      currentElem == size
    }

    /** peek: the top element, or T() when empty. */
    function Peek(): (r: T)
      reads this, stack
      requires Valid()
      ensures r == if Contents() == [] then Default else Contents()[|Contents()| - 1]
    {
      if !IsEmpty() then stack[currentElem - 1] else Default
    }

    /** push: ignored when full; otherwise store `data` above the top. */
    method Push(data: T)
      requires Valid()
      modifies this, stack
      ensures Valid()
      ensures old(currentElem) == size ==> Contents() == old(Contents()) && currentElem == old(currentElem)
      ensures old(currentElem) < size ==> Contents() == old(Contents()) + [data]
    {
      if IsFull() {
        return;
      }
      stack[currentElem] := data;
      currentElem := currentElem + 1;
    }

    /** pop: the top element, removed; T() and no change when empty. */
    method Pop() returns (data: T)
      requires Valid()
      modifies this
      ensures Valid()
      ensures old(Contents()) == [] ==> data == Default && currentElem == old(currentElem)
      ensures old(Contents()) != [] ==>
        data == old(Contents())[|old(Contents())| - 1] && Contents() == old(Contents())[..|old(Contents())| - 1]
    {
      if !IsEmpty() {
        currentElem := currentElem - 1;
        return stack[currentElem];
      }
      return Default;
    }
  }
}
