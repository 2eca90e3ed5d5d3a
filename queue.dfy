/**
 * The request queue of queue.c as an object: the buffer is an array that
 * the methods write in place, and `front`, `rear` and `size` are fields they
 * update. Every method is proved to perform exactly the transition of the
 * corresponding function of module Ring on the state `State()`, so the
 * lemmas proved there (FIFO order, the ring invariant, what a drop does)
 * hold of the object too.
 */
module Queue {
  import opened Wrappers
  import opened Ring

  class RequestQueue {
    var buffer: array<Request>
    const capacity: int
    var size: int
    var front: int
    var rear: int

    /** The queue's fields, read as a value. */
    ghost function State(): RingState
      reads this, buffer
    {
      RingState(buffer[..], capacity, size, front, rear)
    }

    ghost predicate WellFormed()
      reads this, buffer
    {
      State().WellFormed()
    }

    /** `initQueue`: an empty ring of `capacity` slots, `rear` one before slot 0. */
    constructor (capacity: int)
      requires capacity > 0
      ensures fresh(buffer) && WellFormed() && State().Valid()
      ensures this.capacity == capacity && size == 0 && front == 0 && rear == -1
      ensures State().Contents() == []
    {
      this.capacity := capacity;
      size := 0;
      front := 0;
      rear := -1;
      buffer := new Request[capacity];
    }

    /** `enqueue`: no check for a full buffer, as in the code. */
    method Enqueue(req: Request)
      requires WellFormed()
      modifies this, buffer
      ensures buffer == old(buffer) && WellFormed()
      ensures State() == Ring.Enqueue(old(State()), req)
    {
      rear := (rear + 1) % capacity;
      buffer[rear] := req;
      size := size + 1;
    }

    /**
     * `dequeue`. On an empty buffer the code prints an error and exits the
     * process; here that exit is the result `None`, with nothing changed.
     */
    method Dequeue() returns (r: Option<Request>)
      requires WellFormed()
      modifies this
      ensures buffer == old(buffer) && WellFormed()
      ensures old(size) == 0 ==> r == None && State() == old(State())
      ensures old(size) > 0 ==> r == Some(Head(old(State()))) && State() == Ring.Dequeue(old(State()))
    {
      if size == 0 {
        return None;
      }
      r := Some(buffer[front]);
      front := (front + 1) % capacity;
      size := size - 1;
    }

    /** `isQueueFull`: the contents fill every slot. */
    method IsFull() returns (full: bool)
      requires WellFormed()
      ensures full <==> |State().Contents()| == capacity
    {
      full := size == capacity;
    }

    /** `isQueueEmpty`: nothing is waiting. */
    method IsEmpty() returns (empty: bool)
      requires WellFormed()
      ensures empty <==> State().Contents() == []
    {
      empty := size == 0;
    }

    /**
     * `dropRandomRequest`, with `rnd` the value of `rand()`: the loop shifts
     * the physical slots from `rnd % size` up to `size - 2` one place left;
     * `front` and `rear` stay where they are.
     */
    method DropRandom(rnd: nat)
      requires WellFormed() && size <= capacity
      modifies buffer, this`size
      ensures WellFormed()
      ensures State() == Ring.DropRandom(old(State()), rnd)
    {
      if size == 0 {
        return;
      }
      var n := size;
      var idx := rnd % n;
      var i := idx;
      while i < n - 1
        invariant idx <= i <= n - 1
        invariant forall j :: 0 <= j < buffer.Length ==>
          buffer[j] == if idx <= j < i then old(buffer[j + 1]) else old(buffer[j])
      {
        buffer[i] := buffer[i + 1];
        i := i + 1;
      }
      size := n - 1;
      assert buffer[..] == ShiftedLeft(old(buffer[..]), idx, n - 1);
    }
  }
}
