/**
 * The two places where server.c touches the queue, with the locking, the
 * waiting and the sockets taken away: the acceptor's admission step for one
 * new connection, and a worker's guarded take. Each is one atomic transition
 * of the queue, as it is under the queue mutex in the program.
 */
module Server {
  import opened Wrappers
  import opened Ring
  import opened Queue

  /** What became of the new connection. */
  datatype Admission =
    | Admitted   // enqueued (and `not_empty` signalled)
    | Rejected   // `dt`: the connection is closed, the queue is untouched
    | MustWait   // `block`: the acceptor waits on `not_full` and tries again

  /**
   * The admission step as written. On a full buffer the policy string picks
   * the reaction; `block` waits and `dt` rejects, while `dh`, `random` and
   * every other string go on to enqueue, after dropping the oldest request,
   * after a random drop, or after nothing at all.
   */
  function AdmitStep(q: RingState, schedalg: string, req: Request, rnd: nat): (r: (RingState, Admission))
    requires q.WellFormed()
    ensures r.0.WellFormed() && r.0.capacity == q.capacity
    ensures r.1 == Admitted <==> !(q.size == q.capacity && (schedalg == "block" || schedalg == "dt"))
    ensures r.1 != Admitted ==> r.0 == q
  {
    if q.size == q.capacity then
      if schedalg == "block" then (q, MustWait)
      else if schedalg == "dt" then (q, Rejected)
      else if schedalg == "dh" then (Ring.Enqueue(Ring.Dequeue(q), req), Admitted)
      else if schedalg == "random" then (Ring.Enqueue(Ring.DropRandom(q, rnd), req), Admitted)
      else (Ring.Enqueue(q, req), Admitted)
    else (Ring.Enqueue(q, req), Admitted)
  }

  /** The admission step performed on the queue object. */
  method Admit(q: RequestQueue, schedalg: string, req: Request, rnd: nat) returns (outcome: Admission)
    requires q.WellFormed()
    modifies q, q.buffer
    ensures q.buffer == old(q.buffer) && q.WellFormed()
    ensures (q.State(), outcome) == AdmitStep(old(q.State()), schedalg, req, rnd)
  {
    var full := q.IsFull();
    if full {
      if schedalg == "block" {
        return MustWait;
      } else if schedalg == "dt" {
        return Rejected;
      } else if schedalg == "dh" {
        var oldest := q.Dequeue();
      } else if schedalg == "random" {
        q.DropRandom(rnd);
      }
    }
    q.Enqueue(req);
    outcome := Admitted;
  }

  /** What a worker's turn at the queue comes to. */
  datatype Take = Waits | Took(req: Request)

  /**
   * The worker's guard and dequeue: it waits while the queue is empty and
   * otherwise dequeues, so the error exit of `dequeue` is never taken.
   */
  method WorkerTake(q: RequestQueue) returns (t: Take)
    requires q.WellFormed()
    modifies q
    ensures q.buffer == old(q.buffer) && q.WellFormed()
    ensures old(q.size) == 0 ==> t == Waits && q.State() == old(q.State())
    ensures old(q.size) > 0 ==> t == Took(Head(old(q.State()))) && q.State() == Ring.Dequeue(old(q.State()))
  {
    var empty := q.IsEmpty();
    if empty {
      return Waits;
    }
    var r := q.Dequeue();
    assert r.Some?;
    t := Took(r.value);
  }

  // ---------------------------------------------------------------------
  // The admission step, policy by policy
  // ---------------------------------------------------------------------

  /** With room in the buffer, every policy appends the request at the tail and changes nothing else. */
  lemma AdmitWithRoomAppends(q: RingState, schedalg: string, req: Request, rnd: nat)
    requires q.Valid() && q.size < q.capacity
    ensures AdmitStep(q, schedalg, req, rnd).1 == Admitted
    ensures AdmitStep(q, schedalg, req, rnd).0.Valid()
    ensures AdmitStep(q, schedalg, req, rnd).0.Contents() == q.Contents() + [req]
  {
    EnqueueAppends(q, req);
  }

  /** `block` on a full buffer: the acceptor waits and the queue is untouched. */
  lemma AdmitBlockWaits(q: RingState, req: Request, rnd: nat)
    requires q.Valid() && q.size == q.capacity
    ensures AdmitStep(q, "block", req, rnd) == (q, MustWait)
  {
  }

  /**
   * `block`: once a worker has dequeued, the retried admission enqueues; the
   * request lands behind all that were still waiting.
   */
  lemma AdmitBlockAfterDequeue(q: RingState, req: Request, rnd: nat)
    requires q.Valid() && q.size == q.capacity
    ensures var (r, outcome) := AdmitStep(Ring.Dequeue(q), "block", req, rnd);
      outcome == Admitted && r.Valid() && r.Contents() == q.Contents()[1..] + [req]
  {
    DequeueTakesHead(q);
    AdmitWithRoomAppends(Ring.Dequeue(q), "block", req, rnd);
  }

  /** `dt` on a full buffer: the new request is dropped and the queue is untouched. */
  lemma AdmitDropTail(q: RingState, req: Request, rnd: nat)
    requires q.Valid() && q.size == q.capacity
    ensures AdmitStep(q, "dt", req, rnd) == (q, Rejected)
  {
  }

  /**
   * `dh` on a full buffer: the oldest request is removed, the new one is
   * appended, and the buffer stays full and consistent.
   */
  lemma AdmitDropHead(q: RingState, req: Request, rnd: nat)
    requires q.Valid() && q.size == q.capacity
    ensures var (r, outcome) := AdmitStep(q, "dh", req, rnd);
      outcome == Admitted && r.Valid() && r.size == q.capacity &&
      r.Contents() == q.Contents()[1..] + [req]
  {
    DequeueTakesHead(q);
    EnqueueAppends(Ring.Dequeue(q), req);
  }

  /**
   * `random` on a full buffer, as written: after the drop `rear` still
   * points just before `front`, so the enqueue writes the new request into
   * the head slot. It is the next to be served, ahead of every older
   * request, and the ring invariant is broken.
   */
  lemma AdmitRandomTakesHeadSlot(q: RingState, req: Request, rnd: nat)
    requires q.Valid() && q.size == q.capacity
    ensures var (r, outcome) := AdmitStep(q, "random", req, rnd);
      outcome == Admitted && r.size == q.capacity && r.front == q.front &&
      r.rear == q.front && r.Contents()[0] == req &&
      (q.capacity > 1 ==> !r.Valid())
  {
    var cap := q.capacity;
    ModRange(q.rear + 1, cap);
    ModRange(q.front + q.size, cap);
    ModRange(q.front, cap);
    ModRange(q.front + 1, cap);
  }

  /**
   * A witness: with two slots holding a, b, a random drop of index 0 and the
   * enqueue of c leave c, b, which is neither "a, b without one of them,
   * then c" nor FIFO order.
   */
  lemma AdmitRandomScrambles(a: Request, b: Request, c: Request)
    ensures var q := RingState([a, b], 2, 2, 0, 1);
      q.Valid() && q.Contents() == [a, b] &&
      AdmitStep(q, "random", c, 0).0.Contents() == [c, b]
  {
    var q := RingState([a, b], 2, 2, 0, 1);
    assert q.Contents() == [a, b];
    var d := Ring.DropRandom(q, 0);
    assert d.slots == [b, b] && d.size == 1;
    var r := Ring.Enqueue(d, c);
    assert r.slots == [c, b] && r.size == 2 && r.front == 0;
    assert r.Contents() == [c, b];
  }

  /**
   * Any string other than the four policy names, on a full buffer: control
   * falls through to `enqueue`, which overwrites the oldest request and
   * makes `size` exceed the capacity.
   */
  lemma AdmitUnknownPolicyOverfills(q: RingState, schedalg: string, req: Request, rnd: nat)
    requires q.Valid() && q.size == q.capacity
    requires schedalg != "block" && schedalg != "dt" && schedalg != "dh" && schedalg != "random"
    ensures var (r, outcome) := AdmitStep(q, schedalg, req, rnd);
      outcome == Admitted && r.size == q.capacity + 1 &&
      r.Contents() == [req] + q.Contents()[1..] + [req]
  {
    EnqueueOnFullOverwritesHead(q, req);
  }

  /** `dt` with one slot: of two requests only the first is kept, the second is rejected. */
  lemma DropTailExample(q: RingState, a: Request, b: Request)
    requires q.Valid() && q.capacity == 1 && q.size == 0
    ensures var (q1, o1) := AdmitStep(q, "dt", a, 0);
      var (q2, o2) := AdmitStep(q1, "dt", b, 0);
      o1 == Admitted && o2 == Rejected && q2.Contents() == [a]
  {
    AdmitWithRoomAppends(q, "dt", a, 0);
  }

  /** `dh` with two slots: after a, b, c the queue holds b, c. */
  lemma DropHeadExample(q: RingState, a: Request, b: Request, c: Request)
    requires q.Valid() && q.capacity == 2 && q.size == 0
    ensures var q1 := AdmitStep(q, "dh", a, 0).0;
      var q2 := AdmitStep(q1, "dh", b, 0).0;
      var q3 := AdmitStep(q2, "dh", c, 0).0;
      q3.Contents() == [b, c]
  {
    AdmitWithRoomAppends(q, "dh", a, 0);
    var q1 := AdmitStep(q, "dh", a, 0).0;
    AdmitWithRoomAppends(q1, "dh", b, 0);
    var q2 := AdmitStep(q1, "dh", b, 0).0;
    AdmitDropHead(q2, c, 0);
  }

  /**
   * The same scenario on the queue object: a queue of two slots under `dh`
   * admits a, b, c, and two workers then take b and c.
   */
  method DropHeadScenario(a: Request, b: Request, c: Request) returns (served: seq<Request>)
    ensures served == [b, c]
  {
    var q := new RequestQueue(2);
    ghost var q0 := q.State();
    var outcome := Admit(q, "dh", a, 0);
    outcome := Admit(q, "dh", b, 0);
    outcome := Admit(q, "dh", c, 0);
    DropHeadExample(q0, a, b, c);
    AdmitWithRoomAppends(q0, "dh", a, 0);
    AdmitWithRoomAppends(AdmitStep(q0, "dh", a, 0).0, "dh", b, 0);
    AdmitDropHead(AdmitStep(AdmitStep(q0, "dh", a, 0).0, "dh", b, 0).0, c, 0);
    ghost var q3 := q.State();
    DequeueTakesHead(q3);
    DequeueTakesHead(Ring.Dequeue(q3));
    var first := WorkerTake(q);
    var second := WorkerTake(q);
    served := [first.req, second.req];
  }

  // ---------------------------------------------------------------------
  // The admission step as evidently intended
  // ---------------------------------------------------------------------

  /** The four policies the acceptor knows. */
  datatype Policy = Block | DropTail | DropHead | Random

  /** The string that selects each policy on the command line. */
  function PolicyName(p: Policy): string {
    match p
    case Block => "block"
    case DropTail => "dt"
    case DropHead => "dh"
    case Random => "random"
  }

  /** Reading the policy string; an unknown name is refused instead of falling through. */
  function ParsePolicy(schedalg: string): (p: Option<Policy>)
    ensures p.Some? ==> PolicyName(p.value) == schedalg
    ensures p.None? ==> forall q: Policy :: PolicyName(q) != schedalg
  {
    if schedalg == "block" then Some(Block)
    else if schedalg == "dt" then Some(DropTail)
    else if schedalg == "dh" then Some(DropHead)
    else if schedalg == "random" then Some(Random)
    else None
  }

  lemma ParsePolicyRoundTrip(p: Policy)
    ensures ParsePolicy(PolicyName(p)) == Some(p)
  {
  }

  /**
   * The admission step with a known policy and the corrected random drop:
   * a full buffer is never written past, and the dropped request is the
   * one at the chosen logical position.
   */
  function AdmitFixed(q: RingState, p: Policy, req: Request, rnd: nat): (r: (RingState, Admission))
    requires q.Valid()
    ensures r.0.WellFormed() && r.0.capacity == q.capacity && r.0.size <= q.capacity
    ensures r.1 == Admitted <==> !(q.size == q.capacity && (p == Block || p == DropTail))
    ensures r.1 != Admitted ==> r.0 == q
  {
    if q.size == q.capacity then
      match p
      case Block => (q, MustWait)
      case DropTail => (q, Rejected)
      case DropHead => (Ring.Enqueue(Ring.Dequeue(q), req), Admitted)
      case Random => (Ring.Enqueue(DropAt(q, rnd), req), Admitted)
    else (Ring.Enqueue(q, req), Admitted)
  }

  /**
   * The corrected admission keeps the ring invariant under every policy, and
   * an admitted request is appended behind the survivors in FIFO order.
   */
  lemma AdmitFixedKeepsRing(q: RingState, p: Policy, req: Request, rnd: nat)
    requires q.Valid()
    ensures var (r, outcome) := AdmitFixed(q, p, req, rnd);
      r.Valid() &&
      (q.size < q.capacity ==> outcome == Admitted && r.Contents() == q.Contents() + [req]) &&
      (q.size == q.capacity ==>
        match p
        case Block => outcome == MustWait && r == q
        case DropTail => outcome == Rejected && r == q
        case DropHead => outcome == Admitted && r.Contents() == q.Contents()[1..] + [req]
        case Random =>
          var k := rnd % q.size;
          outcome == Admitted && r.Contents() == q.Contents()[..k] + q.Contents()[k + 1..] + [req])
  {
    if q.size < q.capacity {
      EnqueueAppends(q, req);
    } else {
      match p
      case Block =>
      case DropTail =>
      case DropHead =>
        DequeueTakesHead(q);
        EnqueueAppends(Ring.Dequeue(q), req);
      case Random =>
        DropAtRemovesOne(q, rnd);
        EnqueueAppends(DropAt(q, rnd), req);
    }
  }
}
