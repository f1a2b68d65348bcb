/** The list-backed LIFO stack the Towers of Hanoi pegs are made of (lab2/stack.py). Its
    `Empty` exception is also what the circular queue raises. */
module PegStacks {
  import opened Common

  /** The `Empty` exception, with its message. */
  datatype Empty = Empty(message: string)

  class Stack<T> {
    /** `self.items`: bottom first, top last. */
    var items: seq<T>

    constructor()
      ensures items == []
    {
      items := [];
    }

    /** `push(item)`: the item goes on top; nothing below it changes. */
    method Push(item: T)
      modifies this
      ensures items == old(items) + [item]
      ensures Size() == old(Size()) + 1
    {
      items := items + [item];
    }

    /** `pop()`: Empty("stack is empty") on an empty stack, otherwise removes and returns the
        top item and leaves the items below it as they were. */
    method Pop() returns (r: Result<T, Empty>)
      modifies this
      ensures old(items) == [] ==> r == Err(Empty("stack is empty")) && items == old(items)
      ensures old(items) != [] ==> r == Ok(Top(old(items))) && items == Below(old(items))
    {
      if IsEmpty() {
        return Err(Empty("stack is empty"));
      }
      var top := items[|items| - 1];
      items := items[..|items| - 1];
      return Ok(top);
    }

    /** `peek()`: None on an empty stack (no exception, whatever its docstring says), otherwise
        the top item; the stack is not changed. */
    function Peek(): (r: Option<T>)
      reads this
      ensures r.None? <==> IsEmpty()
      ensures r.Some? ==> items != [] && r.value == Top(items)
    {
      if IsEmpty() then None else Some(items[|items| - 1])
    }

    /** `is_empty()`. */
    function IsEmpty(): (b: bool)
      reads this
      ensures b <==> Size() == 0
    {
      |items| == 0
    }

    /** `size()`. */
    function Size(): (n: nat)
      reads this
      ensures n == |items|
    {
      |items|
    }
  }

  /** The top of a non-empty stack's items. */
  function Top<T>(s: seq<T>): T
    requires s != []
  {
    s[|s| - 1]
  }

  /** The items under the top. */
  function Below<T>(s: seq<T>): (b: seq<T>)
    requires s != []
    ensures b + [Top(s)] == s
  {
    s[..|s| - 1]
  }

  /** Pushing and then popping gives back the item pushed and the stack as it was. */
  lemma PushPop<T>(s: seq<T>, x: T)
    ensures Top(s + [x]) == x && Below(s + [x]) == s
  {
    assert (s + [x])[..|s|] == s;
  }
}
