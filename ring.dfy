/**
 * The circular request buffer of queue.c, as values.
 *
 * A `RingState` holds the fields of the C `Queue` struct (the buffer slots,
 * `capacity`, `size`, `front`, `rear`); the mutex and condition variables
 * are not part of it. Each operation of queue.c is a function from the old
 * state to the new one, so that its effect can be stated and reasoned about
 * in lemmas. The class in queue.dfy performs the same updates in place on an
 * array and is proved to agree with these functions.
 */
module Ring {

  /** A `struct timeval`: opaque to the queue, only carried along. */
  datatype TimeVal = TimeVal(sec: int, usec: int)

  /** A queued connection: its socket descriptor and its arrival time. */
  datatype Request = Request(connfd: int, arrival: TimeVal)

  /** The data fields of a `Queue`. */
  datatype RingState = RingState(slots: seq<Request>, capacity: int, size: int, front: int, rear: int)
  {
    /**
     * The bounds that every state reachable through the code keeps, even
     * the faulty ones: the buffer has `capacity` slots, `front` is a slot,
     * `rear` is a slot or the initial -1. `size` may exceed `capacity`
     * (an enqueue into a full buffer does that).
     */
    predicate WellFormed() {
      0 < capacity && |slots| == capacity &&
      0 <= front < capacity && -1 <= rear < capacity && 0 <= size
    }

    /**
     * The ring invariant: the buffer is not over-full and `rear` is the slot
     * just before the first free one, i.e. `size` slots after `front`.
     */
    predicate Valid() {
      WellFormed() && size <= capacity &&
      (rear + 1) % capacity == (front + size) % capacity
    }

    /**
     * The requests the consumers will take out, in order: `size` slots from
     * `front` on, wrapping around the end of the buffer. `DequeueDropsFirst`
     * and `DrainAllYieldsContents` prove that this is the serving order in
     * every well-formed state, not only in valid ones.
     */
    function Contents(): seq<Request>
      requires WellFormed()
    {
      seq(size, i requires 0 <= i < size => slots[(front + i) % capacity])
    }
  }

  /** Euclidean `%` on a small range, as a case split. */
  lemma ModRange(x: int, m: int)
    requires 0 < m && -m <= x < 2 * m
    ensures x % m == if x < 0 then x + m else if x < m then x else x - m
  {
  }

  /** `enqueue`: advance `rear` (wrapping), store the request there, count it. */
  function Enqueue(q: RingState, req: Request): (r: RingState)
    requires q.WellFormed()
    ensures r.WellFormed()
  {
    var rear := (q.rear + 1) % q.capacity;
    q.(slots := q.slots[rear := req], rear := rear, size := q.size + 1)
  }

  /** The request `dequeue` returns: the one in slot `front`, the oldest of the contents. */
  function Head(q: RingState): (h: Request)
    requires q.WellFormed()
    ensures q.size > 0 ==> h == q.Contents()[0]
  {
    ModRange(q.front, q.capacity);
    q.slots[q.front]
  }

  /** `dequeue` on a non-empty buffer: advance `front` (wrapping), uncount. */
  function Dequeue(q: RingState): (r: RingState)
    requires q.WellFormed() && q.size > 0
    ensures r.WellFormed()
  {
    q.(front := (q.front + 1) % q.capacity, size := q.size - 1)
  }

  /**
   * The buffer after the shift loop of `dropRandomRequest`: the physical
   * slots `from .. to-1` each take the value of their right neighbour, all
   * other slots keep theirs.
   */
  function ShiftedLeft(slots: seq<Request>, from: int, to: int): (r: seq<Request>)
    requires 0 <= from && to < |slots|
    ensures |r| == |slots|
    ensures from <= |slots| ==> r[..from] == slots[..from]
    ensures from <= to ==> r[from..to] == slots[from + 1..to + 1]
    ensures 0 <= to ==> r[to..] == slots[to..]
  {
    seq(|slots|, j requires 0 <= j < |slots| => if from <= j < to then slots[j + 1] else slots[j])
  }

  /**
   * `dropRandomRequest`, with `rnd` the value `rand()` returned: nothing on an
   * empty buffer; otherwise the physical index `rnd % size` is shifted out of
   * the physical slots `0 .. size-1` and `size` shrinks. `front` and `rear`
   * are left alone. The shift reads slot `size - 1`, so the buffer must not
   * be over-full.
   */
  function DropRandom(q: RingState, rnd: nat): (r: RingState)
    requires q.WellFormed() && q.size <= q.capacity
    ensures r.WellFormed()
  {
    if q.size == 0 then q
    else q.(slots := ShiftedLeft(q.slots, rnd % q.size, q.size - 1), size := q.size - 1)
  }

  /**
   * What `dropRandomRequest` evidently means to do: remove the request at
   * LOGICAL position `rnd % size` (counted from `front`), shift the later
   * ones one place towards the head, and move `rear` back one slot so that
   * the ring invariant survives.
   */
  function DropAt(q: RingState, rnd: nat): (r: RingState)
    requires q.Valid()
    ensures r.WellFormed() && r.capacity == q.capacity && r.front == q.front
    ensures r.size == if q.size == 0 then 0 else q.size - 1
  {
    if q.size == 0 then q
    else
      var k := rnd % q.size;
      var cap := q.capacity;
      q.(slots := seq(cap, j requires 0 <= j < cap =>
                      var pos := (j - q.front + cap) % cap;
                      if k <= pos < q.size - 1 then q.slots[(q.front + pos + 1) % cap] else q.slots[j]),
         size := q.size - 1,
         rear := (q.rear - 1 + cap) % cap)
  }

  // ---------------------------------------------------------------------
  // Properties of the operations
  // ---------------------------------------------------------------------

  /** Enqueue into a buffer with room appends to the contents and keeps the ring invariant. */
  lemma EnqueueAppends(q: RingState, req: Request)
    requires q.Valid() && q.size < q.capacity
    ensures Enqueue(q, req).Valid()
    ensures Enqueue(q, req).Contents() == q.Contents() + [req]
  {
    var r := Enqueue(q, req);
    var cap := q.capacity;
    ModRange(q.rear + 1, cap);
    ModRange(q.front + q.size, cap);
    ModRange(q.front + q.size + 1, cap);
    ModRange(r.rear + 1, cap);
    forall i | 0 <= i < q.size
      ensures r.Contents()[i] == q.Contents()[i]
    {
      ModRange(q.front + i, cap);
    }
    assert r.Contents() == q.Contents() + [req];
  }

  /**
   * Enqueue into a FULL buffer (the code does not check): the new request
   * overwrites the oldest one, which is lost, and `size` becomes one more
   * than the capacity, so the consumers take the new request first and then
   * again last.
   */
  lemma EnqueueOnFullOverwritesHead(q: RingState, req: Request)
    requires q.Valid() && q.size == q.capacity
    ensures Enqueue(q, req).size == q.capacity + 1
    ensures Enqueue(q, req).Contents() == [req] + q.Contents()[1..] + [req]
  {
    var r := Enqueue(q, req);
    var cap := q.capacity;
    ModRange(q.rear + 1, cap);
    ModRange(q.front + q.size, cap);
    assert r.rear == q.front;
    forall i | 0 <= i <= cap
      ensures r.Contents()[i] == ([req] + q.Contents()[1..] + [req])[i]
    {
      ModRange(q.front + i, cap);
    }
  }

  /** Dequeue returns the oldest request, leaves the rest in order and keeps the ring invariant. */
  lemma DequeueTakesHead(q: RingState)
    requires q.Valid() && q.size > 0
    ensures Head(q) == q.Contents()[0]
    ensures Dequeue(q).Valid()
    ensures Dequeue(q).Contents() == q.Contents()[1..]
  {
    var r := Dequeue(q);
    var cap := q.capacity;
    ModRange(q.front, cap);
    ModRange(q.front + 1, cap);
    ModRange(q.front + q.size, cap);
    ModRange(r.front + r.size, cap);
    forall i | 0 <= i < r.size
      ensures r.Contents()[i] == q.Contents()[i + 1]
    {
      ModRange(r.front + i, cap);
      ModRange(q.front + 1 + i, cap);
    }
  }

  /**
   * When `front` is 0 (so the contents sit in slots `0 .. size-1` without
   * wrapping), `dropRandomRequest` removes exactly the request at position
   * `rnd % size` and keeps the others in order.
   */
  lemma DropRandomAtFrontZero(q: RingState, rnd: nat)
    requires q.Valid() && q.front == 0 && q.size > 0
    ensures var k := rnd % q.size;
      DropRandom(q, rnd).Contents() == q.Contents()[..k] + q.Contents()[k + 1..]
  {
    var k := rnd % q.size;
    var r := DropRandom(q, rnd);
    forall i | 0 <= i < q.size
      ensures q.Contents()[i] == q.slots[i]
    {
      ModRange(i, q.capacity);
    }
    forall i | 0 <= i < r.size
      ensures r.Contents()[i] == (q.Contents()[..k] + q.Contents()[k + 1..])[i]
    {
      ModRange(i, q.capacity);
    }
  }

  /**
   * `dropRandomRequest` never moves `rear`, so on a buffer of more than one
   * slot it always breaks the ring invariant.
   */
  lemma DropRandomBreaksRing(q: RingState, rnd: nat)
    requires q.Valid() && q.size > 0 && q.capacity > 1
    ensures !DropRandom(q, rnd).Valid()
  {
    var cap := q.capacity;
    ModRange(q.rear + 1, cap);
    ModRange(q.front + q.size, cap);
    ModRange(q.front + q.size - 1, cap);
  }

  /**
   * When the contents wrap around the end of the buffer the physical shift
   * is not a removal: from a full 3-slot buffer holding a, b, c from slot 1
   * on, dropping index 0 leaves b twice and loses a and c.
   */
  lemma DropRandomWrappedDuplicates(a: Request, b: Request, c: Request)
    ensures var q := RingState([c, a, b], 3, 3, 1, 0);
      q.Valid() && q.Contents() == [a, b, c] &&
      DropRandom(q, 0).Contents() == [b, b]
  {
    var q := RingState([c, a, b], 3, 3, 1, 0);
    assert q.Contents() == [a, b, c];
    var r := DropRandom(q, 0);
    assert r.slots == [a, b, b];
    assert r.Contents() == [b, b];
  }

  /** The slot `i` places after `front` lies `i` places after `front` again, counting round the ring. */
  lemma SlotDistance(front: int, i: int, cap: int)
    requires 0 <= front < cap && 0 <= i < cap
    ensures 0 <= (front + i) % cap < cap
    ensures ((front + i) % cap - front + cap) % cap == i
  {
    ModRange(front + i, cap);
    ModRange((front + i) % cap - front + cap, cap);
  }

  /** The corrected drop moves `rear` back with `size`, so the ring invariant survives. */
  lemma DropAtKeepsRing(q: RingState, rnd: nat)
    requires q.Valid() && q.size > 0
    ensures DropAt(q, rnd).Valid()
  {
    var cap := q.capacity;
    var r := DropAt(q, rnd);
    ModRange(q.rear + 1, cap);
    ModRange(q.rear - 1 + cap, cap);
    ModRange(r.rear + 1, cap);
    ModRange(q.front + q.size, cap);
    ModRange(q.front + q.size - 1, cap);
  }

  /**
   * The corrected drop removes exactly the request at logical position
   * `rnd % size`, keeps the others in order and keeps the ring invariant,
   * wherever `front` is.
   */
  lemma DropAtRemovesOne(q: RingState, rnd: nat)
    requires q.Valid() && q.size > 0
    ensures DropAt(q, rnd).Valid()
    ensures var k := rnd % q.size;
      DropAt(q, rnd).Contents() == q.Contents()[..k] + q.Contents()[k + 1..]
  {
    DropAtKeepsRing(q, rnd);
    var k := rnd % q.size;
    var cap := q.capacity;
    var r := DropAt(q, rnd);
    forall i | 0 <= i < r.size
      ensures r.Contents()[i] == (q.Contents()[..k] + q.Contents()[k + 1..])[i]
    {
      SlotDistance(q.front, i, cap);
      var j := (q.front + i) % cap;
      assert r.Contents()[i] == r.slots[j];
      assert (j - q.front + cap) % cap == i;
      if k <= i {
        assert r.slots[j] == q.slots[(q.front + i + 1) % cap] == q.Contents()[i + 1];
      } else {
        assert r.slots[j] == q.slots[j] == q.Contents()[i];
      }
    }
  }

  // ---------------------------------------------------------------------
  // FIFO order
  // ---------------------------------------------------------------------

  /** Enqueue the requests one after another. */
  function EnqueueAll(q: RingState, reqs: seq<Request>): (r: RingState)
    requires q.WellFormed()
    ensures r.WellFormed() && r.size == q.size + |reqs|
    decreases |reqs|
  {
    if reqs == [] then q else EnqueueAll(Enqueue(q, reqs[0]), reqs[1..])
  }

  /** Dequeue until the buffer is empty; the requests in the order they come out. */
  function DrainAll(q: RingState): (out: seq<Request>)
    requires q.WellFormed()
    ensures |out| == q.size
    decreases q.size
  {
    if q.size == 0 then [] else [Head(q)] + DrainAll(Dequeue(q))
  }

  lemma {:induction false} EnqueueAllAppends(q: RingState, reqs: seq<Request>)
    requires q.Valid() && q.size + |reqs| <= q.capacity
    ensures EnqueueAll(q, reqs).Valid()
    ensures EnqueueAll(q, reqs).Contents() == q.Contents() + reqs
    decreases |reqs|
  {
    if reqs != [] {
      EnqueueAppends(q, reqs[0]);
      EnqueueAllAppends(Enqueue(q, reqs[0]), reqs[1..]);
      assert q.Contents() + [reqs[0]] + reqs[1..] == q.Contents() + reqs;
    }
  }

  /** A non-zero multiple of `m` is at least `m` away from zero. */
  lemma MultipleBounds(m: int, d: int)
    requires 0 < m
    ensures d >= 1 ==> m * d >= m
    ensures d <= -1 ==> m * d <= -m
  {
  }

  /** Adding one whole turn of the buffer does not change the slot. */
  lemma ModTurn(i: int, m: int)
    requires 0 <= i && 0 < m
    ensures (i + m) % m == i % m
  {
    var k, r := i / m, i % m;
    var k', r' := (i + m) / m, (i + m) % m;
    assert m * (k' - k - 1) == r - r' by {
      assert i == m * k + r && i + m == m * k' + r';
      assert m * (k' - k - 1) == m * k' - m * k - m;
    }
    MultipleBounds(m, k' - k - 1);
  }

  /**
   * In every well-formed state, over-full and broken ones included, a
   * dequeue removes exactly the first of the contents and keeps the rest in
   * order: the contents are what the consumers take out.
   */
  lemma DequeueDropsFirst(q: RingState)
    requires q.WellFormed() && q.size > 0
    ensures Dequeue(q).Contents() == q.Contents()[1..]
  {
    var r := Dequeue(q);
    var cap := q.capacity;
    ModRange(q.front + 1, cap);
    forall i | 0 <= i < r.size
      ensures r.Contents()[i] == q.Contents()[i + 1]
    {
      if q.front + 1 == cap {
        ModTurn(i, cap);
      }
    }
  }

  /**
   * Dequeuing until empty yields exactly the contents, oldest first, in
   * every well-formed state.
   */
  lemma {:induction false} DrainAllYieldsContents(q: RingState)
    requires q.WellFormed()
    ensures DrainAll(q) == q.Contents()
    decreases q.size
  {
    if q.size > 0 {
      DequeueDropsFirst(q);
      DrainAllYieldsContents(Dequeue(q));
    }
  }

  /**
   * FIFO: requests enqueued into an empty buffer and then dequeued, with no
   * drop in between, come out in the order they went in.
   */
  lemma FifoOrder(q: RingState, reqs: seq<Request>)
    requires q.Valid() && q.size == 0 && |reqs| <= q.capacity
    ensures DrainAll(EnqueueAll(q, reqs)) == reqs
  {
    EnqueueAllAppends(q, reqs);
    DrainAllYieldsContents(EnqueueAll(q, reqs));
  }
}
