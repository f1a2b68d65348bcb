/** The list-backed LIFO stack the expression converter works with (lab1/stack.py). */
module ExpressionStack {
  import opened Common

  /** The `Empty` exception, with its message. */
  datatype Empty = Empty(message: string)

  class Stack<T> {
    /** `self.items`: bottom first, top last. */
    var items: seq<T>

    constructor()
      ensures items == []
    {
      items := [];
    }

    /** `push(item)`: the item goes on top; nothing below it changes. */
    method Push(item: T)
      modifies this
      ensures items == old(items) + [item]
      ensures Size() == old(Size()) + 1
    {
      items := items + [item];
    }

    /** `pop()`: Empty("stack is empty") on an empty stack, otherwise removes and returns the
        top item and leaves the items below it as they were. */
    method Pop() returns (r: Result<T, Empty>)
      modifies this
      ensures old(items) == [] ==> r == Err(Empty("stack is empty")) && items == old(items)
      ensures old(items) != [] ==> r == Ok(old(items)[|old(items)| - 1]) && items == old(items)[..|old(items)| - 1]
      ensures old(items) != [] ==> Size() == old(Size()) - 1
    {
      if IsEmpty() {
        return Err(Empty("stack is empty"));
      }
      var top := items[|items| - 1];
      items := items[..|items| - 1];
      return Ok(top);
    }

    /** `peek()`: None on an empty stack, otherwise the top item; the stack is not changed. */
    function Peek(): (r: Option<T>)
      reads this
      ensures r.None? <==> IsEmpty()
      ensures r.Some? ==> |items| > 0 && r.value == items[|items| - 1]
    {
      if IsEmpty() then None else Some(items[|items| - 1])
    }

    /** `isEmpty()`. */
    function IsEmpty(): (b: bool)
      reads this
      ensures b <==> Size() == 0
    {
      |items| == 0
    }

    /** `size()`. */
    function Size(): (n: nat)
      reads this
      ensures n == |items|
    {
      |items|
    }
  }

  /** A push followed by a pop hands back the pushed item and restores the stack. */
  method PushThenPop<T>(s: Stack<T>, x: T) returns (r: Result<T, Empty>)
    modifies s
    ensures r == Ok(x) && s.items == old(s.items)
  {
    s.Push(x);
    r := s.Pop();
  }
}
