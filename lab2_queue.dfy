/** The FIFO queue over a circular array that doubles when full and halves when a quarter full
    (lab2/queue_1.py). */
module CircularQueue {
  import opened Common
  import opened PegStacks

  /** `Queue.DEFAULT_CAPACITY`. */
  const DefaultCapacity: nat := 10

  /** The array index of the i-th item from the front: `(front + i) % capacity`, written without
      the remainder for 0 <= front < capacity and 0 <= i <= capacity. */
  function Slot(front: int, i: int, capacity: int): int {
    if front + i < capacity then front + i else front + i - capacity
  }

  /** For the indices the queue uses, Python's `%` is the wrap-around Slot computes. */
  lemma SlotIsRemainder(front: int, i: int, capacity: int)
    requires 0 <= front < capacity && 0 <= i <= capacity
    ensures (front + i) % capacity == Slot(front, i, capacity) % capacity
    ensures i < capacity ==> (front + i) % capacity == Slot(front, i, capacity)
  {
    var x := front + i;
    if x < capacity {
      RemainderBelow(x, capacity);
    } else {
      RemainderWrap(x - capacity, capacity);
    }
  }

  /** Stepping one slot on with `(1 + walk) % capacity`, as `_resize` does, reaches the slot of
      the next item. */
  lemma SlotNext(front: int, i: int, capacity: int)
    requires 0 <= front < capacity && 0 <= i < capacity
    ensures 0 <= Slot(front, i + 1, capacity) < capacity
    ensures (1 + Slot(front, i, capacity)) % capacity == Slot(front, i + 1, capacity)
  {
    var w := Slot(front, i, capacity);
    if 1 + w < capacity {
      RemainderBelow(1 + w, capacity);
    } else {
      RemainderWrap(0, capacity);
    }
  }

  /** Once the front moves on one slot, the i-th item sits where the (i+1)-th did. */
  lemma SlotAfterFront(front: int, next: int, capacity: int)
    requires 0 <= front < capacity && next == (front + 1) % capacity
    ensures 0 <= next < capacity
    ensures forall i :: 0 <= i < capacity - 1 ==> Slot(next, i, capacity) == Slot(front, i + 1, capacity)
  {
    if front + 1 < capacity {
      RemainderBelow(front + 1, capacity);
    } else {
      RemainderWrap(0, capacity);
    }
  }

  lemma RemainderBelow(x: int, c: int)
    requires 0 <= x < c
    ensures x % c == x
  {
  }

  lemma RemainderWrap(x: int, c: int)
    requires 0 <= x < c
    ensures (x + c) % c == x
  {
  }

  class Queue<T> {
    /** `_data`: the slots, None where no item is held. */
    var data: array<Option<T>>
    /** `_size`: the number of items. */
    var size: nat
    /** `_front`: the slot of the first item. */
    var front: nat
    /** The items from front to back. */
    ghost var items: seq<T>

    /** The slots hold the items in order from `front`, wrapping at the end of the array. */
    ghost predicate Valid()
      reads this, data
    {
      && data.Length >= 1
      && front < data.Length
      && size <= data.Length
      && |items| == size
      && forall i :: 0 <= i < size ==> data[Slot(front, i, data.Length)] == Some(items[i])
    }

    /** `__init__`: an empty queue over DefaultCapacity empty slots. */
    constructor()
      ensures Valid() && items == [] && data.Length == DefaultCapacity
      ensures fresh(data)
    {
      data := new Option<T>[DefaultCapacity](_ => None);
      size := 0;
      front := 0;
      items := [];
    }

    /** `_resize(cap)`: the items move, in order, to slots 0 .. size-1 of a new array of `cap`
        slots, and the front goes back to 0. */
    method Resize(cap: nat)
      requires Valid() && size <= cap && cap >= 1
      modifies this
      ensures Valid() && items == old(items) && size == old(size)
      ensures data.Length == cap && front == 0 && fresh(data)
      ensures forall i :: 0 <= i < size ==> data[i] == Some(items[i])
    {
      var resized := new Option<T>[cap](_ => None);
      var walk := front;
      for i := 0 to size
        modifies resized
        invariant walk < data.Length && walk == Slot(front, i, data.Length)
        invariant forall j :: 0 <= j < i ==> resized[j] == Some(items[j])
      {
        resized[i] := data[walk];
        SlotNext(front, i, data.Length);
        walk := (1 + walk) % data.Length;
      }
      assert forall i :: 0 <= i < size ==> Slot(0, i, cap) == i;
      data := resized;
      front := 0;
    }

    /** `is_empty()`. */
    function IsEmpty(): (b: bool)
      reads this
      ensures b <==> size == 0
    {
      size == 0
    }

    /** `size()`. */
    function Size(): (n: nat)
      reads this, data
      requires Valid()
      ensures n == |items|
    {
      size
    }

    /** `enqueue(item)`: the item goes to the back. A full array is first doubled. */
    method Enqueue(item: T)
      requires Valid()
      modifies this, data
      ensures Valid() && items == old(items) + [item]
      ensures data == old(data) || fresh(data)
      ensures data.Length == if old(size) == old(data.Length) then 2 * old(data.Length) else old(data.Length)
    {
      if size == data.Length {
        Resize(2 * data.Length);
      }
      SlotIsRemainder(front, size, data.Length);
      var avail := (front + size) % data.Length;
      data[avail] := Some(item);
      size := size + 1;
      items := items + [item];
    }

    /** `dequeue()`: Empty("Queue is empty") on an empty queue; otherwise the first item comes
        out, and a queue left less than a quarter full (but not empty) halves its array. */
    method Dequeue() returns (r: Result<T, Empty>)
      requires Valid()
      modifies this, data
      ensures Valid() && (data == old(data) || fresh(data))
      ensures old(items) == [] ==> r == Err(Empty("Queue is empty")) && items == []
      ensures old(items) != [] ==> r == Ok(old(items)[0]) && items == old(items)[1..]
      ensures old(items) != [] ==>
        data.Length == if 0 < size < old(data.Length) / 4 then old(data.Length) / 2 else old(data.Length)
    {
      if IsEmpty() {
        return Err(Empty("Queue is empty"));
      }
      var answer := data[front];
      assert answer == Some(items[0]);
      data[front] := None;
      SlotAfterFront(front, (front + 1) % data.Length, data.Length);
      front := (front + 1) % data.Length;
      size := size - 1;
      items := items[1..];
      if 0 < size < data.Length / 4 {
        Resize(data.Length / 2);
      }
      return Ok(answer.value);
    }

    /** `first()`: Empty("Queue is empty") on an empty queue, otherwise the first item; nothing
        changes. */
    function First(): (r: Result<T, Empty>)
      reads this, data
      requires Valid()
      ensures items == [] ==> r == Err(Empty("Queue is empty"))
      ensures items != [] ==> r == Ok(items[0])
    {
      if size == 0 then Err(Empty("Queue is empty"))
      else
        assert data[Slot(front, 0, data.Length)] == Some(items[0]);
        Ok(data[front].value)
    }
  }
}
