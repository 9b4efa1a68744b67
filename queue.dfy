/**
 * CTL::Queue<T>: a ring buffer over a fixed array of `size` cells. `front`
 * and `rear` index the first and last element, and both are -1 when the
 * queue is empty.
 */
module Queues {

  /**
   * The occupied cells of ring `q` from `front` to `rear`, wrapping past the
   * end; none when `front` is -1.
   */
  ghost function Window<T>(q: seq<T>, front: int, rear: int): seq<T>
    requires -1 <= front < |q| && -1 <= rear < |q|
  {
    if front == -1 then []
    else if front <= rear then q[front..rear + 1]
    else q[front..] + q[..rear + 1]
  }

  /** The cell after `i` in a ring of `n` cells. */
  function Next(i: int, n: int): (j: int)
    requires 0 < n && -1 <= i < n
    ensures 0 <= j < n && j == (i + 1) % n
  {
    if i + 1 == n then 0 else i + 1
  }

  /** The ring is full exactly when the cell after rear is front. */
  lemma FullWhenRearMeetsFront<T>(q: seq<T>, front: int, rear: int)
    requires 0 < |q| && -1 <= front < |q| && -1 <= rear < |q| && (front == -1 <==> rear == -1)
    ensures (Next(rear, |q|) == front) <==> |Window(q, front, rear)| == |q|
  {
  }

  /** Writing after rear (cyclically) on a ring that is not full appends. */
  lemma EnqueueAppends<T>(q: seq<T>, front: int, rear: int, x: T)
    requires 0 < |q| && -1 <= front < |q| && -1 <= rear < |q| && (front == -1 <==> rear == -1)
    requires Next(rear, |q|) != front
    ensures Window(q[Next(rear, |q|) := x], if front == -1 then 0 else front, Next(rear, |q|))
            == Window(q, front, rear) + [x]
  {
    var r := Next(rear, |q|);
    var q' := q[r := x];
    if front == -1 {
      assert Window(q', 0, r) == q'[0..1];
    } else if front <= rear && rear + 1 < |q| {
      assert q'[front..rear + 2] == q[front..rear + 1] + [x];
    } else if front <= rear {
      assert q'[front..] == q[front..rear + 1];
      assert q'[..1] == [x];
    } else {
      assert q'[front..] == q[front..];
      assert q'[..rear + 2] == q[..rear + 1] + [x];
    }
  }

  /** Advancing front (or emptying a one-element ring) drops the oldest element. */
  lemma DequeueDrops<T>(q: seq<T>, front: int, rear: int)
    requires 0 <= front < |q| && 0 <= rear < |q|
    ensures Window(q, front, rear) != [] && Window(q, front, rear)[0] == q[front]
    ensures front == rear <==> |Window(q, front, rear)| == 1
    ensures front == rear ==> Window(q, -1, -1) == Window(q, front, rear)[1..]
    ensures front != rear ==> Window(q, Next(front, |q|), rear) == Window(q, front, rear)[1..]
  {
    if front > rear && front + 1 == |q| {
      assert Window(q, 0, rear) == q[..rear + 1];
      assert q[front..] == [q[front]];
    } else if front > rear {
      assert q[front + 1..] == q[front..][1..];
    }
  }

  class Queue<T> {
    const size: int
    var front: int
    var rear: int
    const queue: array<T>
    /** T(): what dequeue and peek return on an empty queue. */
    const Default: T
    /** The elements from front to rear, oldest first. */
    ghost var Contents: seq<T>

    ghost predicate Valid()
      reads this, queue
    {
      size > 0 && queue.Length == size &&
      -1 <= front < size && -1 <= rear < size &&
      (front == -1 <==> rear == -1) &&
      Contents == Window(queue[..], front, rear)
    }

    constructor (size: int, zero: T)
      requires size > 0
      ensures Valid() && fresh(queue)
      ensures this.size == size && Contents == [] && Default == zero
    {
      this.size := size;
      front, rear := -1, -1;
      queue := new T[size](_ => zero);
      Default := zero;
      Contents := [];
    }

    /** isEmpty: front == -1. */
    function IsEmpty(): (r: bool)
      reads this, queue
      requires Valid()
      ensures r <==> Contents == []
    {
      front == -1
    }

    /** isFull: the cell after rear (cyclically) is front. */
    function IsFull(): (r: bool)
      reads this, queue
      requires Valid()
      ensures r <==> |Contents| == size
    {
      FullWhenRearMeetsFront(queue[..], front, rear);
      (rear + 1) % size == front
    }

    /** peek: the element dequeue would return next, or T() when empty. */
    function Peek(): (r: T)
      reads this, queue
      requires Valid()
      ensures r == if Contents == [] then Default else Contents[0]
    {
      if IsEmpty() then Default else queue[front]
    }

    /** enqueue: ignored when full; otherwise write `data` after rear (cyclically). */
    method Enqueue(data: T)
      requires Valid()
      modifies this, queue
      ensures Valid()
      ensures |old(Contents)| == size ==> Contents == old(Contents) && front == old(front) && rear == old(rear)
      ensures |old(Contents)| < size ==> Contents == old(Contents) + [data]
    {
      if IsFull() {
        return;
      }
      EnqueueAppends(queue[..], front, rear, data);
      if IsEmpty() {
        front := 0;
      }
      rear := (rear + 1) % size;
      queue[rear] := data;
      Contents := Contents + [data];
    }

    /**
     * dequeue: T() without any change when empty; otherwise the front
     * element, resetting front and rear to -1 when it was the only one.
     */
    method Dequeue() returns (data: T)
      requires Valid()
      modifies this
      ensures Valid()
      ensures old(Contents) == [] ==> data == Default && Contents == [] && front == old(front) && rear == old(rear)
      ensures old(Contents) != [] ==> data == old(Contents)[0] && Contents == old(Contents)[1..]
      ensures |old(Contents)| == 1 ==> front == -1 && rear == -1
    {
      if IsEmpty() {
        return Default;
      }
      DequeueDrops(queue[..], front, rear);
      data := queue[front];
      if front == rear {
        front, rear := -1, -1;
      } else {
        front := (front + 1) % size;
      }
      Contents := Contents[1..];
    }
  }
}
