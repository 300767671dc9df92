// The circular-buffer FIFO queue that drives the searches of
// problem_3/problem_3_DemoImpimation.c.

module RoadQueue {

  /** MAX_INTERSECTIONS: the capacity of `items`. */
  const Capacity := 100

  /** The `size` items of a circular buffer, starting at `front`. */
  function Circular(a: seq<int>, front: int, size: int): (q: seq<int>)
    requires |a| == Capacity && 0 <= front < Capacity && 0 <= size <= Capacity
    ensures |q| == size
  {
    seq(size, k requires 0 <= k < size => a[(front + k) % Capacity])
  }

  /** Writing just past the last item appends it, as long as the buffer is not full. */
  lemma CircularPush(a: seq<int>, front: int, size: int, x: int)
    requires |a| == Capacity && 0 <= front < Capacity && 0 <= size < Capacity
    ensures Circular(a[(front + size) % Capacity := x], front, size + 1) == Circular(a, front, size) + [x]
  {
    var b := a[(front + size) % Capacity := x];
    var q := Circular(a, front, size);
    var r := Circular(b, front, size + 1);
    forall k | 0 <= k < size
      ensures r[k] == q[k]
    {
      assert (front + k) % Capacity != (front + size) % Capacity;
    }
  }

  /** Advancing `front` drops the first item. */
  lemma CircularPop(a: seq<int>, front: int, size: int)
    requires |a| == Capacity && 0 <= front < Capacity && 0 < size <= Capacity
    ensures Circular(a, front, size)[0] == a[front]
    ensures Circular(a, (front + 1) % Capacity, size - 1) == Circular(a, front, size)[1..]
  {
    var q := Circular(a, front, size);
    var r := Circular(a, (front + 1) % Capacity, size - 1);
    forall k | 0 <= k < size - 1
      ensures r[k] == q[k + 1]
    {
      assert ((front + 1) % Capacity + k) % Capacity == (front + k + 1) % Capacity;
    }
  }

  /** `Queue`: the buffer `items`, the indices `front` and `rear`, and `size`. */
  class Queue {
    const items: array<int>
    var front: int
    var rear: int
    var size: int

    /** `front` and `rear` stay modulo the capacity; `rear` is the slot of the newest item. */
    ghost predicate Valid()
      reads this
    {
      items.Length == Capacity && 0 <= front < Capacity && -1 <= rear < Capacity
      && 0 <= size <= Capacity && (rear + 1) % Capacity == (front + size) % Capacity
    }

    /** The queued items, oldest first. */
    ghost function Contents(): (q: seq<int>)
      requires Valid()
      reads this, items
      ensures |q| == size
    {
      Circular(items[..], front, size)
    }

    /** `initializeQueue`: front 0, rear -1, nothing queued. */
    constructor ()
      ensures Valid() && fresh(items) && Contents() == []
      ensures front == 0 && rear == -1 && size == 0
    {
      items := new int[Capacity](_ => 0);
      front := 0;
      rear := -1;
      size := 0;
    }

    /** `isQueueEmpty`. */
    function IsEmpty(): (r: bool)
      requires Valid()
      reads this, items
      ensures r <==> Contents() == []
    {
      size == 0
    }

    /** `enqueue`: appends item unless the queue already holds Capacity items. */
    method Enqueue(item: int)
      requires Valid()
      modifies this, items
      ensures Valid()
      ensures old(size) < Capacity ==> Contents() == old(Contents()) + [item]
      ensures old(size) >= Capacity ==> Contents() == old(Contents())
    {
      if size < Capacity {
        ghost var a := items[..];
        rear := (rear + 1) % Capacity;
        items[rear] := item;
        size := size + 1;
        assert items[..] == a[(front + size - 1) % Capacity := item];
        CircularPush(a, front, size - 1, item);
      }
    }

    /** `dequeue`: removes and returns the oldest item, or returns -1 when empty. */
    method Dequeue() returns (item: int)
      requires Valid()
      modifies this
      ensures Valid()
      ensures old(size) > 0 ==> item == old(Contents())[0] && Contents() == old(Contents())[1..]
      ensures old(size) == 0 ==> item == -1 && Contents() == old(Contents())
    {
      if !IsEmpty() {
        CircularPop(items[..], front, size);
        item := items[front];
        front := (front + 1) % Capacity;
        size := size - 1;
        return;
      }
      item := -1;
    }
  }
}
