/** Client coroutines on executors. Each executor runs one continuation at a time, taken from its completion
    queue; a continuation moves to another executor by a ring message that goes through the sender's
    submission queue. Commands run on the service executor without a lock. */
module Hops {
  import opened Collections

  /** What a receive brought: part of a request, bytes that are no request, the end, or a request. */
  datatype Input<Q> = Partial | Malformed | Ended | Complete(request: Q)

  /** Where a client's coroutine stands. */
  datatype Task<S, Q, R> =
    | Receiving
    | Received(input: Input<Q>)
    | Arrived(request: Q)
    | Invoking(request: Q, snapshot: S)
    | Invoked(reply: R)
    | Returned(reply: R)
    | Writing
    | Written(ok: bool)

  /** Where a client's continuation is: with the kernel, in a queue (by absolute position), in a submission
      queue, on a thread, or nowhere any more. */
  datatype Place = Kernel | InQueue(e: nat, n: nat) | InOutbox(e: nat, n: nat) | OnThread(e: nat) | Closed

  datatype Post = Post(target: nat, client: nat)

  datatype Entry<Q, R> = Entry(client: nat, request: Q, reply: R)

  const SERVICE: nat := 0

  datatype State<S, Q, R> = State(
    queues: seq<seq<nat>>, popped: seq<nat>,
    outboxes: seq<seq<Post>>, posted: seq<nat>,
    threads: seq<Option<nat>>,
    places: seq<Place>, tasks: seq<Task<S, Q, R>>,
    store: S, log: seq<Entry<Q, R>>, sent: seq<seq<R>>, arrivals: seq<nat>)

  // ---------------------------------------------------------------- one place for each continuation

  ghost predicate Shaped<S, Q, R>(s: State<S, Q, R>, conn: seq<nat>) {
    && 0 < |s.queues| == |s.popped| == |s.outboxes| == |s.posted| == |s.threads|
    && |s.places| == |s.tasks| == |s.sent| == |conn|
    && forall c :: 0 <= c < |conn| ==> conn[c] < |s.queues|
  }

  ghost predicate PlaceHolds<S, Q, R>(s: State<S, Q, R>, conn: seq<nat>, c: nat)
    requires Shaped(s, conn) && c < |conn|
  {
    match s.places[c]
    case InQueue(e, n) => e < |s.queues| && s.popped[e] <= n < s.popped[e] + |s.queues[e]|
        && s.queues[e][n - s.popped[e]] == c
    case InOutbox(e, n) => e < |s.queues| && s.posted[e] <= n < s.posted[e] + |s.outboxes[e]|
        && s.outboxes[e][n - s.posted[e]].client == c
    case OnThread(e) => e < |s.queues| && s.threads[e] == Some(c)
    case _ => true
  }

  ghost predicate QueueHolds<S, Q, R>(s: State<S, Q, R>, conn: seq<nat>, e: nat, i: nat)
    requires Shaped(s, conn) && e < |s.queues| && i < |s.queues[e]|
  {
    s.queues[e][i] < |conn| && s.places[s.queues[e][i]] == InQueue(e, s.popped[e] + i)
  }

  ghost predicate OutboxHolds<S, Q, R>(s: State<S, Q, R>, conn: seq<nat>, e: nat, i: nat)
    requires Shaped(s, conn) && e < |s.queues| && i < |s.outboxes[e]|
  {
    && s.outboxes[e][i].client < |conn| && s.outboxes[e][i].target < |s.queues|
    && s.places[s.outboxes[e][i].client] == InOutbox(e, s.posted[e] + i)
  }

  ghost predicate ThreadHolds<S, Q, R>(s: State<S, Q, R>, conn: seq<nat>, e: nat)
    requires Shaped(s, conn) && e < |s.queues|
  {
    s.threads[e].Some? ==> s.threads[e].value < |conn| && s.places[s.threads[e].value] == OnThread(e)
  }

  /** Queues, submission queues and threads agree with the places, both ways. */
  ghost predicate Located<S, Q, R>(s: State<S, Q, R>, conn: seq<nat>) {
    && Shaped(s, conn)
    && (forall c :: 0 <= c < |conn| ==> PlaceHolds(s, conn, c))
    && (forall e, i :: 0 <= e < |s.queues| && 0 <= i < |s.queues[e]| ==> QueueHolds(s, conn, e, i))
    && (forall e, i :: 0 <= e < |s.queues| && 0 <= i < |s.outboxes[e]| ==> OutboxHolds(s, conn, e, i))
    && (forall e :: 0 <= e < |s.queues| ==> ThreadHolds(s, conn, e))
  }

  // ---------------------------------------------------------------- moves

  function LeaveQueue<S, Q, R>(s: State<S, Q, R>, e: nat): State<S, Q, R>
    requires e < |s.queues| == |s.popped| && s.queues[e] != [] && s.queues[e][0] < |s.places|
  {
    s.(queues := s.queues[e := s.queues[e][1..]], popped := s.popped[e := s.popped[e] + 1],
       places := s.places[s.queues[e][0] := Kernel])
  }

  function EnterQueue<S, Q, R>(s: State<S, Q, R>, c: nat, e: nat): State<S, Q, R>
    requires e < |s.queues| == |s.popped| && c < |s.places|
  {
    s.(queues := s.queues[e := s.queues[e] + [c]], places := s.places[c := InQueue(e, s.popped[e] + |s.queues[e]|)])
  }

  function LeaveOutbox<S, Q, R>(s: State<S, Q, R>, e: nat): State<S, Q, R>
    requires e < |s.outboxes| == |s.posted| && s.outboxes[e] != [] && s.outboxes[e][0].client < |s.places|
  {
    s.(outboxes := s.outboxes[e := s.outboxes[e][1..]], posted := s.posted[e := s.posted[e] + 1],
       places := s.places[s.outboxes[e][0].client := Kernel])
  }

  function EnterOutbox<S, Q, R>(s: State<S, Q, R>, c: nat, e: nat, target: nat): State<S, Q, R>
    requires e < |s.outboxes| == |s.posted| && c < |s.places|
  {
    s.(outboxes := s.outboxes[e := s.outboxes[e] + [Post(target, c)]], places :=
        s.places[c := InOutbox(e, s.posted[e] + |s.outboxes[e]|)])
  }

  function LeaveThread<S, Q, R>(s: State<S, Q, R>, e: nat, to: Place): State<S, Q, R>
    requires e < |s.threads| && s.threads[e].Some? && s.threads[e].value < |s.places|
  {
    s.(threads := s.threads[e := None], places := s.places[s.threads[e].value := to])
  }

  function EnterThread<S, Q, R>(s: State<S, Q, R>, c: nat, e: nat): State<S, Q, R>
    requires e < |s.threads| && c < |s.places|
  {
    s.(threads := s.threads[e := Some(c)], places := s.places[c := OnThread(e)])
  }

  lemma LeaveQueueKeeps<S, Q, R>(s: State<S, Q, R>, conn: seq<nat>, e: nat)
    requires Located(s, conn) && e < |s.queues| && s.queues[e] != []
    ensures s.queues[e][0] < |conn| && s.places[s.queues[e][0]] == InQueue(e, s.popped[e])
    ensures Located(LeaveQueue(s, e), conn)
  {
    assert QueueHolds(s, conn, e, 0);
    var t := LeaveQueue(s, e);
    forall c | 0 <= c < |conn| ensures PlaceHolds(t, conn, c) {
      assert PlaceHolds(s, conn, c);
    }
    forall f, i | 0 <= f < |t.queues| && 0 <= i < |t.queues[f]| ensures QueueHolds(t, conn, f, i) {
      assert QueueHolds(s, conn, f, if f == e then i + 1 else i);
    }
    forall f, i | 0 <= f < |t.queues| && 0 <= i < |t.outboxes[f]| ensures OutboxHolds(t, conn, f, i) {
      assert OutboxHolds(s, conn, f, i);
    }
    forall f | 0 <= f < |t.queues| ensures ThreadHolds(t, conn, f) {
      assert ThreadHolds(s, conn, f);
    }
  }

  lemma EnterQueueKeeps<S, Q, R>(s: State<S, Q, R>, conn: seq<nat>, c: nat, e: nat)
    requires Located(s, conn) && c < |conn| && e < |s.queues| && s.places[c] == Kernel
    ensures Located(EnterQueue(s, c, e), conn)
  {
    var t := EnterQueue(s, c, e);
    forall d | 0 <= d < |conn| ensures PlaceHolds(t, conn, d) {
      assert PlaceHolds(s, conn, d);
    }
    forall f, i | 0 <= f < |t.queues| && 0 <= i < |t.queues[f]| ensures QueueHolds(t, conn, f, i) {
      if f != e || i < |s.queues[e]| {
        assert QueueHolds(s, conn, f, i);
      }
    }
    forall f, i | 0 <= f < |t.queues| && 0 <= i < |t.outboxes[f]| ensures OutboxHolds(t, conn, f, i) {
      assert OutboxHolds(s, conn, f, i);
    }
    forall f | 0 <= f < |t.queues| ensures ThreadHolds(t, conn, f) {
      assert ThreadHolds(s, conn, f);
    }
  }

  lemma LeaveOutboxKeeps<S, Q, R>(s: State<S, Q, R>, conn: seq<nat>, e: nat)
    requires Located(s, conn) && e < |s.queues| && s.outboxes[e] != []
    ensures s.outboxes[e][0].client < |conn| && s.outboxes[e][0].target < |s.queues|
    ensures s.places[s.outboxes[e][0].client] == InOutbox(e, s.posted[e])
    ensures Located(LeaveOutbox(s, e), conn)
  {
    assert OutboxHolds(s, conn, e, 0);
    var t := LeaveOutbox(s, e);
    forall d | 0 <= d < |conn| ensures PlaceHolds(t, conn, d) {
      assert PlaceHolds(s, conn, d);
    }
    forall f, i | 0 <= f < |t.queues| && 0 <= i < |t.queues[f]| ensures QueueHolds(t, conn, f, i) {
      assert QueueHolds(s, conn, f, i);
    }
    forall f, i | 0 <= f < |t.queues| && 0 <= i < |t.outboxes[f]| ensures OutboxHolds(t, conn, f, i) {
      assert OutboxHolds(s, conn, f, if f == e then i + 1 else i);
    }
    forall f | 0 <= f < |t.queues| ensures ThreadHolds(t, conn, f) {
      assert ThreadHolds(s, conn, f);
    }
  }

  lemma EnterOutboxKeeps<S, Q, R>(s: State<S, Q, R>, conn: seq<nat>, c: nat, e: nat, target: nat)
    requires Located(s, conn) && c < |conn| && e < |s.queues| && target < |s.queues| && s.places[c] == Kernel
    ensures Located(EnterOutbox(s, c, e, target), conn)
  {
    var t := EnterOutbox(s, c, e, target);
    forall d | 0 <= d < |conn| ensures PlaceHolds(t, conn, d) {
      assert PlaceHolds(s, conn, d);
    }
    forall f, i | 0 <= f < |t.queues| && 0 <= i < |t.queues[f]| ensures QueueHolds(t, conn, f, i) {
      assert QueueHolds(s, conn, f, i);
    }
    forall f, i | 0 <= f < |t.queues| && 0 <= i < |t.outboxes[f]| ensures OutboxHolds(t, conn, f, i) {
      if f != e || i < |s.outboxes[e]| {
        assert OutboxHolds(s, conn, f, i);
      }
    }
    forall f | 0 <= f < |t.queues| ensures ThreadHolds(t, conn, f) {
      assert ThreadHolds(s, conn, f);
    }
  }

  lemma LeaveThreadKeeps<S, Q, R>(s: State<S, Q, R>, conn: seq<nat>, e: nat, to: Place)
    requires Located(s, conn) && e < |s.queues| && s.threads[e].Some? && (to == Kernel || to == Closed)
    ensures s.threads[e].value < |conn| && s.places[s.threads[e].value] == OnThread(e)
    ensures Located(LeaveThread(s, e, to), conn)
  {
    assert ThreadHolds(s, conn, e);
    var t := LeaveThread(s, e, to);
    forall d | 0 <= d < |conn| ensures PlaceHolds(t, conn, d) {
      assert PlaceHolds(s, conn, d);
    }
    forall f, i | 0 <= f < |t.queues| && 0 <= i < |t.queues[f]| ensures QueueHolds(t, conn, f, i) {
      assert QueueHolds(s, conn, f, i);
    }
    forall f, i | 0 <= f < |t.queues| && 0 <= i < |t.outboxes[f]| ensures OutboxHolds(t, conn, f, i) {
      assert OutboxHolds(s, conn, f, i);
    }
    forall f | 0 <= f < |t.queues| ensures ThreadHolds(t, conn, f) {
      assert ThreadHolds(s, conn, f);
    }
  }

  lemma EnterThreadKeeps<S, Q, R>(s: State<S, Q, R>, conn: seq<nat>, c: nat, e: nat)
    requires Located(s, conn) && c < |conn| && e < |s.queues| && s.places[c] == Kernel && s.threads[e].None?
    ensures Located(EnterThread(s, c, e), conn)
  {
    var t := EnterThread(s, c, e);
    forall d | 0 <= d < |conn| ensures PlaceHolds(t, conn, d) {
      assert PlaceHolds(s, conn, d);
    }
    forall f, i | 0 <= f < |t.queues| && 0 <= i < |t.queues[f]| ensures QueueHolds(t, conn, f, i) {
      assert QueueHolds(s, conn, f, i);
    }
    forall f, i | 0 <= f < |t.queues| && 0 <= i < |t.outboxes[f]| ensures OutboxHolds(t, conn, f, i) {
      assert OutboxHolds(s, conn, f, i);
    }
    forall f | 0 <= f < |t.queues| ensures ThreadHolds(t, conn, f) {
      assert ThreadHolds(s, conn, f);
    }
  }

  /** A continuation is in one place only: whatever holds it is what its place says. */
  lemma OnePlace<S, Q, R>(s: State<S, Q, R>, conn: seq<nat>, e: nat, i: nat, f: nat, j: nat)
    requires Located(s, conn) && e < |s.queues| && f < |s.queues|
    ensures i < |s.queues[e]| && j < |s.queues[f]| && s.queues[e][i] == s.queues[f][j] ==> e == f && i == j
    ensures i < |s.outboxes[e]| && j < |s.outboxes[f]| && s.outboxes[e][i].client == s.outboxes[f][j].client ==>
              e == f && i == j
    ensures s.threads[e].Some? && s.threads[e] == s.threads[f] ==> e == f
    ensures i < |s.queues[e]| && j < |s.outboxes[f]| ==> s.queues[e][i] != s.outboxes[f][j].client
    ensures i < |s.queues[e]| && s.threads[f].Some? ==> s.queues[e][i] != s.threads[f].value
    ensures i < |s.outboxes[e]| && s.threads[f].Some? ==> s.outboxes[e][i].client != s.threads[f].value
  {
    assert ThreadHolds(s, conn, e) && ThreadHolds(s, conn, f);
    if i < |s.queues[e]| {
      assert QueueHolds(s, conn, e, i);
    }
    if j < |s.queues[f]| {
      assert QueueHolds(s, conn, f, j);
    }
    if i < |s.outboxes[e]| {
      assert OutboxHolds(s, conn, e, i);
    }
    if j < |s.outboxes[f]| {
      assert OutboxHolds(s, conn, f, j);
    }
  }

  // ---------------------------------------------------------------- the steps of the machine

  datatype Step<Q> =
    | Receive(client: nat, input: Input<Q>)
    | Write(client: nat, ok: bool)
    | Dispatch(e: nat)
    | Deliver(e: nat)
    | Resume(e: nat)

  function SetTask<S, Q, R>(s: State<S, Q, R>, c: nat, task: Task<S, Q, R>): State<S, Q, R>
    requires c < |s.tasks|
  {
    s.(tasks := s.tasks[c := task])
  }

  /** The kernel finishes a receive or a write: its completion goes to the connection's executor. */
  ghost predicate CanComplete<S, Q, R>(s: State<S, Q, R>, conn: seq<nat>, c: nat) {
    Shaped(s, conn) && c < |conn| && s.places[c] == Kernel && (s.tasks[c].Receiving? || s.tasks[c].Writing?)
  }

  function CompleteStep<S, Q, R>(s: State<S, Q, R>, conn: seq<nat>, c: nat, task: Task<S, Q, R>): State<S, Q, R>
    requires CanComplete(s, conn, c)
  {
    SetTask(EnterQueue(s, c, conn[c]), c, task)
  }

  /** An idle executor reaps its oldest completion and resumes that continuation. */
  ghost predicate CanDispatch<S, Q, R>(s: State<S, Q, R>, conn: seq<nat>, e: nat) {
    Located(s, conn) && e < |s.queues| && s.threads[e].None? && s.queues[e] != []
  }

  function DispatchStep<S, Q, R>(s: State<S, Q, R>, ghost conn: seq<nat>, e: nat): State<S, Q, R>
    requires CanDispatch(s, conn, e)
  {
    LeaveQueueKeeps(s, conn, e);
    EnterThread(LeaveQueue(s, e), s.queues[e][0], e)
  }

  /** A ring message reaches the queue of its target, once. */
  ghost predicate CanDeliver<S, Q, R>(s: State<S, Q, R>, conn: seq<nat>, e: nat) {
    Located(s, conn) && e < |s.queues| && s.outboxes[e] != []
  }

  function DeliverStep<S, Q, R>(s: State<S, Q, R>, ghost conn: seq<nat>, e: nat): State<S, Q, R>
    requires CanDeliver(s, conn, e)
  {
    LeaveOutboxKeeps(s, conn, e);
    var post := s.outboxes[e][0];
    EnterQueue(LeaveOutbox(s, e), post.client, post.target)
      .(arrivals := if s.tasks[post.client].Arrived? then s.arrivals + [post.client] else s.arrivals)
  }

  /** Suspends the running coroutine and sends it to `target`, unless it is there already. */
  function HopTo<S, Q, R>(s: State<S, Q, R>, ghost conn: seq<nat>, e: nat, target: nat,
                          task: Task<S, Q, R>): State<S, Q, R>
    requires Located(s, conn) && e < |s.queues| && s.threads[e].Some? && target < |s.queues|
  {
    LeaveThreadKeeps(s, conn, e, Kernel);
    var c := s.threads[e].value;
    if target == e then SetTask(s, c, task) else SetTask(EnterOutbox(LeaveThread(s, e, Kernel), c, e, target), c, task)
  }

  /** Suspends the running coroutine on an operation of the kernel. */
  function Await<S, Q, R>(s: State<S, Q, R>, ghost conn: seq<nat>, e: nat, task: Task<S, Q, R>): State<S, Q, R>
    requires Located(s, conn) && e < |s.queues| && s.threads[e].Some?
  {
    LeaveThreadKeeps(s, conn, e, Kernel);
    SetTask(LeaveThread(s, e, Kernel), s.threads[e].value, task)
  }

  ghost predicate CanResume<S, Q, R>(s: State<S, Q, R>, conn: seq<nat>, e: nat) {
    Located(s, conn) && e < |s.queues| && s.threads[e].Some?
  }

  /** The running coroutine goes on to its next suspension or to the next half of its invocation. */
  function ResumeStep<S, Q, R>(apply: (S, Q) -> (S, R), s: State<S, Q, R>, conn: seq<nat>, e: nat): State<S, Q, R>
    requires CanResume(s, conn, e)
  {
    LeaveThreadKeeps(s, conn, e, Kernel);
    var c := s.threads[e].value;
    match s.tasks[c]
    case Received(Partial) => Await(s, conn, e, Receiving)
    case Received(Malformed) => Await(s, conn, e, Writing)
    case Received(Ended) => LeaveThread(s, e, Closed)
    case Received(Complete(q)) => HopTo(s, conn, e, SERVICE, Arrived(q))
    case Arrived(q) => SetTask(s, c, Invoking(q, s.store))
    case Invoking(q, snapshot) =>
      var (store, reply) := apply(snapshot, q);
      SetTask(s, c, Invoked(reply)).(store := store, log := s.log + [Entry(c, q, reply)])
    case Invoked(reply) => HopTo(s, conn, e, conn[c], Returned(reply))
    case Returned(reply) => Await(s, conn, e, Writing).(sent := s.sent[c := s.sent[c] + [reply]])
    case Written(true) => Await(s, conn, e, Receiving)
    case Written(false) => LeaveThread(s, e, Closed)
    case _ => s
  }

  ghost predicate Enabled<S, Q, R>(s: State<S, Q, R>, conn: seq<nat>, step: Step<Q>) {
    match step
    case Receive(c, _) => CanComplete(s, conn, c) && s.tasks[c].Receiving?
    case Write(c, _) => CanComplete(s, conn, c) && s.tasks[c].Writing?
    case Dispatch(e) => CanDispatch(s, conn, e)
    case Deliver(e) => CanDeliver(s, conn, e)
    case Resume(e) => CanResume(s, conn, e)
  }

  ghost function Next<S, Q, R>(apply: (S, Q) -> (S, R), s: State<S, Q, R>, conn: seq<nat>,
                               step: Step<Q>): State<S, Q, R>
    requires Enabled(s, conn, step)
  {
    match step
    case Receive(c, input) => CompleteStep(s, conn, c, Received(input))
    case Write(c, ok) => CompleteStep(s, conn, c, Written(ok))
    case Dispatch(e) => DispatchStep(s, conn, e)
    case Deliver(e) => DeliverStep(s, conn, e)
    case Resume(e) => ResumeStep(apply, s, conn, e)
  }

  // ---------------------------------------------------------------- which task is where

  ghost predicate Fits<S, Q, R>(s: State<S, Q, R>, conn: seq<nat>, c: nat)
    requires Shaped(s, conn) && c < |conn| && PlaceHolds(s, conn, c)
  {
    var task := s.tasks[c];
    match s.places[c]
    case Kernel => task.Receiving? || task.Writing?
    case Closed => task == Received(Ended) || task == Written(false)
    case InQueue(e, _) => if task.Arrived? then e == SERVICE != conn[c]
        else e == conn[c] && (task.Received? || task.Returned? || task.Written?)
    case OnThread(e) =>
      if task.Arrived? || task.Invoking? || task.Invoked? then e == SERVICE
      else e == conn[c] && (task.Received? || task.Returned? || task.Written?)
    case InOutbox(e, n) =>
      var target := s.outboxes[e][n - s.posted[e]].target;
      if task.Arrived? then target == SERVICE != conn[c] else task.Returned? && target == conn[c]
  }

  ghost predicate AllFit<S, Q, R>(s: State<S, Q, R>, conn: seq<nat>) {
    Located(s, conn) && forall c :: 0 <= c < |conn| ==> Fits(s, conn, c)
  }

  lemma CompleteFits<S, Q, R>(s: State<S, Q, R>, conn: seq<nat>, c: nat, task: Task<S, Q, R>)
    requires AllFit(s, conn) && CanComplete(s, conn, c) && (task.Received? || task.Written?)
    ensures AllFit(CompleteStep(s, conn, c, task), conn)
  {
    EnterQueueKeeps(s, conn, c, conn[c]);
    var u, t := EnterQueue(s, c, conn[c]), CompleteStep(s, conn, c, task);
    SameLocations(u, t, conn);
    forall d | 0 <= d < |conn| ensures Fits(t, conn, d) {
      assert Fits(s, conn, d);
    }
  }

  /** Only tasks, the store, the log and what was sent differ. */
  ghost predicate SamePlaces<S, Q, R>(s: State<S, Q, R>, t: State<S, Q, R>) {
    && s.queues == t.queues && s.popped == t.popped && s.outboxes == t.outboxes && s.posted == t.posted
    && s.threads == t.threads && s.places == t.places && |s.tasks| == |t.tasks| && |s.sent| == |t.sent|
  }

  lemma SameLocations<S, Q, R>(s: State<S, Q, R>, t: State<S, Q, R>, conn: seq<nat>)
    requires Located(s, conn) && SamePlaces(s, t)
    ensures Located(t, conn)
  {
    forall d | 0 <= d < |conn| ensures PlaceHolds(t, conn, d) {
      assert PlaceHolds(s, conn, d);
    }
    forall f, i | 0 <= f < |t.queues| && 0 <= i < |t.queues[f]| ensures QueueHolds(t, conn, f, i) {
      assert QueueHolds(s, conn, f, i);
    }
    forall f, i | 0 <= f < |t.queues| && 0 <= i < |t.outboxes[f]| ensures OutboxHolds(t, conn, f, i) {
      assert OutboxHolds(s, conn, f, i);
    }
    forall f | 0 <= f < |t.queues| ensures ThreadHolds(t, conn, f) {
      assert ThreadHolds(s, conn, f);
    }
  }

  lemma DispatchFits<S, Q, R>(s: State<S, Q, R>, conn: seq<nat>, e: nat)
    requires AllFit(s, conn) && CanDispatch(s, conn, e)
    ensures AllFit(DispatchStep(s, conn, e), conn)
  {
    LeaveQueueKeeps(s, conn, e);
    EnterThreadKeeps(LeaveQueue(s, e), conn, s.queues[e][0], e);
    var t := DispatchStep(s, conn, e);
    forall d | 0 <= d < |conn| ensures Fits(t, conn, d) {
      assert Fits(s, conn, d);
    }
  }

  lemma DeliverFits<S, Q, R>(s: State<S, Q, R>, conn: seq<nat>, e: nat)
    requires AllFit(s, conn) && CanDeliver(s, conn, e)
    ensures AllFit(DeliverStep(s, conn, e), conn)
  {
    LeaveOutboxKeeps(s, conn, e);
    var post := s.outboxes[e][0];
    var u := EnterQueue(LeaveOutbox(s, e), post.client, post.target);
    EnterQueueKeeps(LeaveOutbox(s, e), conn, post.client, post.target);
    var t := DeliverStep(s, conn, e);
    SameLocations(u, t, conn);
    forall d | 0 <= d < |conn| ensures Fits(t, conn, d) {
      assert Fits(s, conn, d) && PlaceHolds(s, conn, d);
      if d != post.client && s.places[d].InOutbox? {
        SamePost(s.outboxes[s.places[d].e], s.places[d].n - s.posted[s.places[d].e]);
      }
    }
  }

  lemma SamePost(posts: seq<Post>, i: nat)
    requires i < |posts|
    ensures i > 0 ==> posts[1..][i - 1] == posts[i]
  {
  }

  lemma AwaitFits<S, Q, R>(s: State<S, Q, R>, conn: seq<nat>, e: nat, task: Task<S, Q, R>)
    requires AllFit(s, conn) && CanResume(s, conn, e) && (task.Receiving? || task.Writing?)
    ensures AllFit(Await(s, conn, e, task), conn)
  {
    LeaveThreadKeeps(s, conn, e, Kernel);
    var t := Await(s, conn, e, task);
    SameLocations(LeaveThread(s, e, Kernel), t, conn);
    forall d | 0 <= d < |conn| ensures Fits(t, conn, d) {
      assert Fits(s, conn, d);
    }
  }

  lemma CloseFits<S, Q, R>(s: State<S, Q, R>, conn: seq<nat>, e: nat)
    requires AllFit(s, conn) && CanResume(s, conn, e) && s.threads[e].value < |conn|
    requires s.tasks[s.threads[e].value] == Received(Ended) || s.tasks[s.threads[e].value] == Written(false)
    ensures AllFit(LeaveThread(s, e, Closed), conn)
  {
    LeaveThreadKeeps(s, conn, e, Closed);
    var t := LeaveThread(s, e, Closed);
    forall d | 0 <= d < |conn| ensures Fits(t, conn, d) {
      assert Fits(s, conn, d);
    }
  }

  /** A hop to the executor it is on goes on at once. A hop to another frees the thread and posts the client to the
      target, behind what the executor posted before. Every task stays where a task of its kind can be. */
  lemma HopFits<S, Q, R>(s: State<S, Q, R>, conn: seq<nat>, e: nat, target: nat, task: Task<S, Q, R>)
    requires AllFit(s, conn) && CanResume(s, conn, e) && target < |s.queues| && s.threads[e].value < |conn|
    requires (task.Arrived? && target == SERVICE && e == conn[s.threads[e].value])
               || (task.Returned? && target == conn[s.threads[e].value])
    ensures AllFit(HopTo(s, conn, e, target, task), conn)
    ensures var c, t := s.threads[e].value, HopTo(s, conn, e, target, task);
            && c < |t.tasks| == |t.places| && t.tasks[c] == task
            && if target == e then t.threads == s.threads && t.places == s.places && t.outboxes == s.outboxes
               else
                 && t.threads == s.threads[e := None]
                 && t.outboxes == s.outboxes[e := s.outboxes[e] + [Post(target, c)]]
                 && t.places[c] == InOutbox(e, s.posted[e] + |s.outboxes[e]|)
  {
    LeaveThreadKeeps(s, conn, e, Kernel);
    var c := s.threads[e].value;
    var t := HopTo(s, conn, e, target, task);
    if target == e {
      SameLocations(s, t, conn);
    } else {
      EnterOutboxKeeps(LeaveThread(s, e, Kernel), conn, c, e, target);
      SameLocations(EnterOutbox(LeaveThread(s, e, Kernel), c, e, target), t, conn);
    }
    assert Fits(s, conn, c);
    assert Fits(t, conn, c);
    forall d | 0 <= d < |conn| && d != c ensures Fits(t, conn, d) {
      assert Fits(s, conn, d) && PlaceHolds(s, conn, d);
      HopElsewhere(s, conn, e, target, task, d);
    }
  }

  /** A hop leaves the place, the coroutine state and the message of every other client. */
  lemma HopElsewhere<S, Q, R>(s: State<S, Q, R>, conn: seq<nat>, e: nat, target: nat, task: Task<S, Q, R>, d: nat)
    requires CanResume(s, conn, e) && target < |s.queues| && d < |conn| && s.threads[e].value < |conn|
    requires d != s.threads[e].value
    ensures var t := HopTo(s, conn, e, target, task);
            && |t.places| == |t.tasks| == |conn| && t.places[d] == s.places[d] && t.tasks[d] == s.tasks[d]
                && t.posted == s.posted
            && |t.outboxes| == |s.outboxes| == |s.posted|
            && (s.places[d].InOutbox? ==>
                  && s.places[d].e < |s.outboxes|
                  && var f, i := s.places[d].e, s.places[d].n - s.posted[s.places[d].e];
                     0 <= i < |s.outboxes[f]| && i < |t.outboxes[f]| && t.outboxes[f][i] == s.outboxes[f][i])
  {
    LeaveThreadKeeps(s, conn, e, Kernel);
    assert PlaceHolds(s, conn, d);
  }

  lemma StayFits<S, Q, R>(s: State<S, Q, R>, t: State<S, Q, R>, conn: seq<nat>, e: nat)
    requires AllFit(s, conn) && CanResume(s, conn, e) && SamePlaces(s, t) && s.threads[e].value < |conn|
    requires forall d :: 0 <= d < |conn| && d != s.threads[e].value ==> t.tasks[d] == s.tasks[d]
    requires var a, b := s.tasks[s.threads[e].value], t.tasks[s.threads[e].value];
             (a.Arrived? && b.Invoking?) || (a.Invoking? && b.Invoked?) || a == b
    ensures AllFit(t, conn)
  {
    SameLocations(s, t, conn);
    assert ThreadHolds(s, conn, e);
    forall d | 0 <= d < |conn| ensures Fits(t, conn, d) {
      assert Fits(s, conn, d);
    }
  }

  lemma ResumeFits<S, Q, R>(apply: (S, Q) -> (S, R), s: State<S, Q, R>, conn: seq<nat>, e: nat)
    requires AllFit(s, conn) && CanResume(s, conn, e)
    ensures AllFit(ResumeStep(apply, s, conn, e), conn)
  {
    LeaveThreadKeeps(s, conn, e, Kernel);
    assert Fits(s, conn, s.threads[e].value);
    hide Located;
    var c := s.threads[e].value;
    var t := ResumeStep(apply, s, conn, e);
    match s.tasks[c]
    case Received(Partial) => AwaitFits(s, conn, e, Receiving);
    case Received(Malformed) => AwaitFits(s, conn, e, Writing);
    case Received(Ended) => CloseFits(s, conn, e);
    case Received(Complete(q)) => HopFits(s, conn, e, SERVICE, Arrived(q));
    case Arrived(q) => StayFits(s, t, conn, e);
    case Invoking(q, snapshot) => StayFits(s, t, conn, e);
    case Invoked(reply) => HopFits(s, conn, e, conn[c], Returned(reply));
    case Returned(reply) =>
      AwaitFits(s, conn, e, Writing);
      SentFits(Await(s, conn, e, Writing), t, conn);
    case Written(true) => AwaitFits(s, conn, e, Receiving);
    case Written(false) => CloseFits(s, conn, e);
    case _ => StayFits(s, t, conn, e);
  }

  lemma SentFits<S, Q, R>(s: State<S, Q, R>, t: State<S, Q, R>, conn: seq<nat>)
    requires AllFit(s, conn) && SamePlaces(s, t) && s.tasks == t.tasks
    ensures AllFit(t, conn)
  {
    SameLocations(s, t, conn);
    forall d | 0 <= d < |conn| ensures Fits(t, conn, d) {
      assert Fits(s, conn, d);
    }
  }

  // ---------------------------------------------------------------- commands run one after the other

  ghost function Fold<S, Q, R>(apply: (S, Q) -> (S, R), init: S, log: seq<Entry<Q, R>>): S {
    if log == [] then init else apply(Fold(apply, init, log[..|log| - 1]), log[|log| - 1].request).0
  }

  /** The reply logged at `i` is what its command gives after all earlier ones. */
  ghost predicate ReplyAt<S, Q, R>(apply: (S, Q) -> (S, R), init: S, log: seq<Entry<Q, R>>, i: nat)
    requires i < |log|
  {
    log[i].reply == apply(Fold(apply, init, log[..i]), log[i].request).1
  }

  /** The store and every logged reply are those of the logged commands run one after the other. */
  ghost predicate Sequential<S, Q, R>(apply: (S, Q) -> (S, R), init: S, s: State<S, Q, R>) {
    && s.store == Fold(apply, init, s.log)
    && (forall i :: 0 <= i < |s.log| ==> ReplyAt(apply, init, s.log, i))
    && (forall c :: 0 <= c < |s.tasks| && s.tasks[c].Invoking? ==> s.tasks[c].snapshot == s.store)
  }

  /** Two clients are never inside an invocation at once, and only the service executor runs one. */
  lemma NoOverlap<S, Q, R>(s: State<S, Q, R>, conn: seq<nat>, c: nat, d: nat)
    requires AllFit(s, conn) && c < |conn| && d < |conn| && s.tasks[c].Invoking?
    ensures s.places[c] == OnThread(SERVICE)
    ensures s.tasks[d].Invoking? ==> c == d
  {
    assert Fits(s, conn, c) && PlaceHolds(s, conn, c);
    assert Fits(s, conn, d) && PlaceHolds(s, conn, d);
  }

  lemma LogOne<S, Q, R>(apply: (S, Q) -> (S, R), init: S, log: seq<Entry<Q, R>>, entry: Entry<Q, R>)
    requires forall i :: 0 <= i < |log| ==> ReplyAt(apply, init, log, i)
    requires entry.reply == apply(Fold(apply, init, log), entry.request).1
    ensures Fold(apply, init, log + [entry]) == apply(Fold(apply, init, log), entry.request).0
    ensures forall i :: 0 <= i < |log| + 1 ==> ReplyAt(apply, init, log + [entry], i)
  {
    var more := log + [entry];
    assert more[..|log|] == log;
    forall i | 0 <= i < |log| + 1 ensures ReplyAt(apply, init, more, i) {
      assert more[..i] == log[..i];
      assert i < |log| ==> ReplyAt(apply, init, log, i);
    }
  }

  lemma ResumeSequential<S, Q, R>(apply: (S, Q) -> (S, R), init: S, s: State<S, Q, R>, conn: seq<nat>, e: nat)
    requires AllFit(s, conn) && CanResume(s, conn, e) && Sequential(apply, init, s)
    ensures Sequential(apply, init, ResumeStep(apply, s, conn, e))
  {
    LeaveThreadKeeps(s, conn, e, Kernel);
    var c := s.threads[e].value;
    if s.tasks[c].Invoking? {
      var q := s.tasks[c].request;
      LogOne(apply, init, s.log, Entry(c, q, apply(s.store, q).1));
      forall d | 0 <= d < |s.tasks| && d != c ensures !s.tasks[d].Invoking? {
        NoOverlap(s, conn, c, d);
      }
    }
    hide Located;
    hide Fold;
    hide ReplyAt;
  }

  /** What a resumed coroutine changes besides its place. */
  lemma ResumeEffect<S, Q, R>(apply: (S, Q) -> (S, R), s: State<S, Q, R>, conn: seq<nat>, e: nat)
    requires CanResume(s, conn, e)
    ensures var c, t := s.threads[e].value, ResumeStep(apply, s, conn, e);
            && c < |conn| == |s.tasks| == |t.tasks| == |s.sent| == |t.sent|
            && t.queues == s.queues && t.arrivals == s.arrivals
            && (t.threads == s.threads || t.threads == s.threads[e := None])
            && (forall d :: 0 <= d < |s.tasks| && d != c ==> t.tasks[d] == s.tasks[d])
            && (if s.tasks[c].Invoking? then
                  var r := apply(s.tasks[c].snapshot, s.tasks[c].request).1;
                  t.log == s.log + [Entry(c, s.tasks[c].request, r)] && t.tasks[c] == Invoked(r) && t.sent == s.sent
                      && t.threads == s.threads
                else if s.tasks[c].Returned? then
                  t.log == s.log && t.tasks[c] == Writing && t.sent == s.sent[c := s.sent[c] + [s.tasks[c].reply]]
                      && t.threads[e].None?
                else
                  t.log == s.log && t.sent == s.sent && Outstanding(t.tasks[c]) == Outstanding(s.tasks[c])
                  && (s.tasks[c].Arrived? ==> t.threads == s.threads && t.tasks[c].Invoking?)
                  && ((t.tasks[c].Arrived? || t.tasks[c].Invoking?) && t.threads == s.threads ==>
                       s.tasks[c].Arrived? || (s.tasks[c].Received? && e == SERVICE)))
  {
    LeaveThreadKeeps(s, conn, e, Kernel);
    hide Located;
  }

  // ---------------------------------------------------------------- replies

  ghost function RepliesFor<Q, R>(log: seq<Entry<Q, R>>, c: nat): seq<R> {
    if log == [] then []
    else RepliesFor(log[..|log| - 1], c) + if log[|log| - 1].client == c then [log[|log| - 1].reply] else []
  }

  /** A reply that was computed and not yet written. */
  function Outstanding<S, Q, R>(task: Task<S, Q, R>): seq<R> {
    match task
    case Invoked(reply) => [reply]
    case Returned(reply) => [reply]
    case _ => []
  }

  /** What a client was sent, and what is on its way, are its logged replies in order. */
  ghost predicate Answered<S, Q, R>(s: State<S, Q, R>) {
    |s.sent| == |s.tasks| && forall c :: 0 <= c < |s.tasks| ==>
        RepliesFor(s.log, c) == s.sent[c] + Outstanding(s.tasks[c])
  }

  lemma RepliesSnoc<Q, R>(log: seq<Entry<Q, R>>, entry: Entry<Q, R>, c: nat)
    ensures RepliesFor(log + [entry], c) == RepliesFor(log, c) + if entry.client == c then [entry.reply] else []
  {
    assert (log + [entry])[..|log|] == log;
  }

  lemma ResumeAnswered<S, Q, R>(apply: (S, Q) -> (S, R), s: State<S, Q, R>, conn: seq<nat>, e: nat)
    requires CanResume(s, conn, e) && Answered(s)
    ensures Answered(ResumeStep(apply, s, conn, e))
  {
    var c := s.threads[e].value;
    hide Located;
    hide RepliesFor;
    hide ResumeStep;
    ResumeEffect(apply, s, conn, e);
    var t := ResumeStep(apply, s, conn, e);
    forall d | 0 <= d < |t.tasks| ensures RepliesFor(t.log, d) == t.sent[d] + Outstanding(t.tasks[d]) {
      assert RepliesFor(s.log, d) == s.sent[d] + Outstanding(s.tasks[d]);
      if s.tasks[c].Invoking? {
        RepliesSnoc(s.log, t.log[|s.log|], d);
      }
      if d != c {
        assert t.tasks[d] == s.tasks[d] && t.sent[d] == s.sent[d];
      }
    }
  }

  // ---------------------------------------------------------------- requests

  /** What the receives of a client brought, in order. */
  ghost function Heard<Q>(steps: seq<Step<Q>>, c: nat): seq<Input<Q>> {
    if steps == [] then []
    else
      var last := steps[|steps| - 1];
      Heard(steps[..|steps| - 1], c) + if last.Receive? && last.client == c then [last.input] else []
  }

  /** How the writes to a client ended, in order. */
  ghost function Wrote<Q>(steps: seq<Step<Q>>, c: nat): seq<bool> {
    if steps == [] then []
    else
      var last := steps[|steps| - 1];
      Wrote(steps[..|steps| - 1], c) + if last.Write? && last.client == c then [last.ok] else []
  }

  ghost function Requests<Q>(inputs: seq<Input<Q>>): seq<Q> {
    if inputs == [] then []
    else
      var last := inputs[|inputs| - 1];
      Requests(inputs[..|inputs| - 1]) + if last.Complete? then [last.request] else []
  }

  /** How many inputs are to be answered: the requests, and the bytes that are none. */
  ghost function Owed<Q>(inputs: seq<Input<Q>>): nat {
    if inputs == [] then 0
    else
      var last := inputs[|inputs| - 1];
      Owed(inputs[..|inputs| - 1]) + if last.Complete? || last.Malformed? then 1 else 0
  }

  ghost function RequestsFor<Q, R>(log: seq<Entry<Q, R>>, c: nat): seq<Q> {
    if log == [] then []
    else RequestsFor(log[..|log| - 1], c) + if log[|log| - 1].client == c then [log[|log| - 1].request] else []
  }

  /** A request that was received and not yet run. */
  function Pending<S, Q, R>(task: Task<S, Q, R>): seq<Q> {
    match task
    case Received(Complete(q)) => [q]
    case Arrived(q) => [q]
    case Invoking(q, _) => [q]
    case _ => []
  }

  /** Whether an input was received whose answer is not yet written. */
  predicate Busy<S, Q, R>(task: Task<S, Q, R>) {
    match task
    case Received(input) => input.Complete? || input.Malformed?
    case Receiving => false
    case Written(_) => false
    case _ => true
  }

  /** Of what a client's receives brought, every request was run, or is next, in order; every request and all bytes
      that are none were answered by one write, or are next; nothing follows the end or a failed write. */
  ghost predicate Accounted<S, Q, R>(heard: seq<Input<Q>>, wrote: seq<bool>, log: seq<Entry<Q, R>>, c: nat,
                                     task: Task<S, Q, R>) {
    && Requests(heard) == RequestsFor(log, c) + Pending(task)
    && Owed(heard) == |wrote| + (if Busy(task) then 1 else 0)
    && (Ended in heard <==> task == Received(Ended))
    && (false in wrote <==> task == Written(false))
  }

  lemma RequestsSnoc<Q, R>(log: seq<Entry<Q, R>>, entry: Entry<Q, R>, c: nat)
    ensures RequestsFor(log + [entry], c) == RequestsFor(log, c) + if entry.client == c then [entry.request] else []
  {
    assert (log + [entry])[..|log|] == log;
  }

  lemma HeardSnoc<Q>(steps: seq<Step<Q>>, step: Step<Q>, c: nat)
    ensures Heard(steps + [step], c) ==
            if step.Receive? && step.client == c then Heard(steps, c) + [step.input] else Heard(steps, c)
    ensures Wrote(steps + [step], c) ==
            if step.Write? && step.client == c then Wrote(steps, c) + [step.ok] else Wrote(steps, c)
  {
    assert (steps + [step])[..|steps|] == steps;
  }

  lemma ReceiveAccounted<S, Q, R>(heard: seq<Input<Q>>, wrote: seq<bool>, log: seq<Entry<Q, R>>, c: nat,
                                  task: Task<S, Q, R>, input: Input<Q>)
    requires Accounted(heard, wrote, log, c, task) && task.Receiving?
    ensures Accounted<S, Q, R>(heard + [input], wrote, log, c, Received(input))
  {
    assert (heard + [input])[..|heard|] == heard;
  }

  lemma WriteAccounted<S, Q, R>(heard: seq<Input<Q>>, wrote: seq<bool>, log: seq<Entry<Q, R>>, c: nat,
                                task: Task<S, Q, R>, ok: bool)
    requires Accounted(heard, wrote, log, c, task) && task.Writing?
    ensures Accounted<S, Q, R>(heard, wrote + [ok], log, c, Written(ok))
  {
  }

  /** What a resumed coroutine does with its request. */
  lemma ResumeRequest<S, Q, R>(apply: (S, Q) -> (S, R), s: State<S, Q, R>, conn: seq<nat>, e: nat)
    requires CanResume(s, conn, e)
    ensures var c, t := s.threads[e].value, ResumeStep(apply, s, conn, e);
            && c < |conn| == |s.tasks| == |t.tasks|
            && var a, b := s.tasks[c], t.tasks[c];
               && (if a.Invoking? then b.Invoked? else Pending(a) == Pending(b))
               && Busy(a) == Busy(b)
               && (a == Received(Ended) <==> b == Received(Ended))
               && (a == Written(false) <==> b == Written(false))
  {
    LeaveThreadKeeps(s, conn, e, Kernel);
    hide Located;
  }

  lemma ResumeAccounted<S, Q, R>(apply: (S, Q) -> (S, R), s: State<S, Q, R>, conn: seq<nat>, e: nat,
                                 heard: seq<Input<Q>>, wrote: seq<bool>, d: nat)
    requires CanResume(s, conn, e) && d < |conn| && Accounted(heard, wrote, s.log, d, s.tasks[d])
    ensures var t := ResumeStep(apply, s, conn, e);
            d < |t.tasks| && Accounted(heard, wrote, t.log, d, t.tasks[d])
  {
    ResumeEffect(apply, s, conn, e);
    ResumeRequest(apply, s, conn, e);
    hide Located;
    hide ResumeStep;
    hide RequestsFor;
    hide Requests;
    hide Owed;
    var c, t := s.threads[e].value, ResumeStep(apply, s, conn, e);
    if s.tasks[c].Invoking? {
      RequestsSnoc(s.log, t.log[|s.log|], d);
    }
  }

  // ---------------------------------------------------------------- in the order of the service queue

  /** The logged clients that came by a hop. */
  ghost function Served<Q, R>(log: seq<Entry<Q, R>>, conn: seq<nat>): seq<nat> {
    if log == [] then []
    else
      var c := log[|log| - 1].client;
      Served(log[..|log| - 1], conn) + if c < |conn| && conn[c] != SERVICE then [c] else []
  }

  ghost function ArrivedIn<S, Q, R>(queue: seq<nat>, tasks: seq<Task<S, Q, R>>): seq<nat> {
    if queue == [] then []
    else (if queue[0] < |tasks| && tasks[queue[0]].Arrived? then [queue[0]] else []) + ArrivedIn(queue[1..], tasks)
  }

  /** The client on the service thread that came by a hop and is not logged yet. */
  ghost function OnService<S, Q, R>(s: State<S, Q, R>, conn: seq<nat>): seq<nat>
    requires |s.threads| > 0
  {
    if s.threads[SERVICE].None? then []
    else
      var c := s.threads[SERVICE].value;
      if c < |conn| && c < |s.tasks| && conn[c] != SERVICE && (s.tasks[c].Arrived? || s.tasks[c].Invoking?) then [c]
          else []
  }

  /** Hops are served first come, first served: those that reached the service queue were logged, or are
      running, or wait in the queue, in that order. */
  ghost predicate InOrder<S, Q, R>(s: State<S, Q, R>, conn: seq<nat>) {
    |s.queues| > 0 && |s.threads| > 0 && s.arrivals ==
        Served(s.log, conn) + OnService(s, conn) + ArrivedIn(s.queues[SERVICE], s.tasks)
  }

  lemma {:induction false} ArrivedSnoc<S, Q, R>(queue: seq<nat>, c: nat, tasks: seq<Task<S, Q, R>>)
    ensures ArrivedIn(queue + [c], tasks) == ArrivedIn(queue, tasks) + if c < |tasks| && tasks[c].Arrived? then [c]
              else []
    decreases |queue|
  {
    if queue == [] {
      assert queue + [c] == [c] && [c][1..] == [];
      assert ArrivedIn([c][1..], tasks) == [];
    } else {
      assert (queue + [c])[1..] == queue[1..] + [c];
      ArrivedSnoc(queue[1..], c, tasks);
    }
  }

  lemma {:induction false} ArrivedSame<S, Q, R>(queue: seq<nat>, a: seq<Task<S, Q, R>>, b: seq<Task<S, Q, R>>)
    requires |a| == |b| && forall c :: c in queue && c < |a| ==> a[c] == b[c]
    ensures ArrivedIn(queue, a) == ArrivedIn(queue, b)
    decreases |queue|
  {
    if queue != [] {
      ArrivedSame(queue[1..], a, b);
    }
  }

  lemma NotQueued<S, Q, R>(s: State<S, Q, R>, conn: seq<nat>, c: nat, e: nat)
    requires Located(s, conn) && c < |conn| && e < |s.queues| && !(s.places[c].InQueue? && s.places[c].e == e)
    ensures c !in s.queues[e]
  {
    forall i | 0 <= i < |s.queues[e]| ensures s.queues[e][i] != c {
      assert QueueHolds(s, conn, e, i);
    }
  }

  lemma CompleteOrder<S, Q, R>(s: State<S, Q, R>, conn: seq<nat>, c: nat, task: Task<S, Q, R>)
    requires AllFit(s, conn) && CanComplete(s, conn, c) && InOrder(s, conn) && (task.Received? || task.Written?)
    ensures InOrder(CompleteStep(s, conn, c, task), conn)
  {
    var t := CompleteStep(s, conn, c, task);
    NotQueued(s, conn, c, SERVICE);
    ArrivedSame(s.queues[SERVICE], s.tasks, t.tasks);
    ArrivedSnoc(s.queues[SERVICE], c, t.tasks);
    assert Fits(s, conn, c) && ThreadHolds(s, conn, SERVICE);
    hide Located;
    hide AllFit;
    hide ArrivedIn;
    hide Served;
    assert OnService(t, conn) == OnService(s, conn);
    assert t.queues[SERVICE] == if conn[c] == SERVICE then s.queues[SERVICE] + [c] else s.queues[SERVICE];
    hide CompleteStep;
    hide OnService;
  }

  lemma DispatchOrder<S, Q, R>(s: State<S, Q, R>, conn: seq<nat>, e: nat)
    requires AllFit(s, conn) && CanDispatch(s, conn, e) && InOrder(s, conn)
    ensures InOrder(DispatchStep(s, conn, e), conn)
  {
    LeaveQueueKeeps(s, conn, e);
    assert Fits(s, conn, s.queues[e][0]);
    hide Located;
    hide Served;
  }

  lemma DeliverOrder<S, Q, R>(s: State<S, Q, R>, conn: seq<nat>, e: nat)
    requires AllFit(s, conn) && CanDeliver(s, conn, e) && InOrder(s, conn)
    ensures InOrder(DeliverStep(s, conn, e), conn)
  {
    LeaveOutboxKeeps(s, conn, e);
    var c := s.outboxes[e][0].client;
    assert Fits(s, conn, c);
    ArrivedSnoc(s.queues[SERVICE], c, s.tasks);
    hide AllFit;
    hide Located;
    hide ArrivedIn;
    hide Served;
    var t := DeliverStep(s, conn, e);
    assert t.threads == s.threads && t.tasks == s.tasks && t.log == s.log;
    assert OnService(t, conn) == OnService(s, conn);
    assert t.queues[SERVICE] == if s.outboxes[e][0].target == SERVICE then s.queues[SERVICE] + [c]
           else s.queues[SERVICE];
  }

  lemma ServedSnoc<Q, R>(log: seq<Entry<Q, R>>, entry: Entry<Q, R>, conn: seq<nat>)
    ensures Served(log + [entry], conn) == Served(log, conn) + if entry.client < |conn| && conn[entry.client] != SERVICE
              then [entry.client] else []
  {
    assert (log + [entry])[..|log|] == log;
  }

  /** A resumed coroutine that is not logged by the step leaves the service thread's place in the order. */
  lemma ResumeOnService<S, Q, R>(apply: (S, Q) -> (S, R), s: State<S, Q, R>, conn: seq<nat>, e: nat)
    requires AllFit(s, conn) && CanResume(s, conn, e)
    ensures var c, t := s.threads[e].value, ResumeStep(apply, s, conn, e);
            && c < |conn| == |s.tasks| && |t.threads| > 0
            && OnService(s, conn) == (if s.tasks[c].Invoking? && conn[c] != SERVICE then [c] else [])
                + OnService(t, conn)
  {
    ResumeEffect(apply, s, conn, e);
    hide ResumeStep;
    var c := s.threads[e].value;
    assert Fits(s, conn, c) && PlaceHolds(s, conn, c) && ThreadHolds(s, conn, SERVICE) && ThreadHolds(s, conn, e);
    hide Located;
    hide AllFit;
  }

  lemma ResumeOrder<S, Q, R>(apply: (S, Q) -> (S, R), s: State<S, Q, R>, conn: seq<nat>, e: nat)
    requires AllFit(s, conn) && CanResume(s, conn, e) && InOrder(s, conn)
    ensures InOrder(ResumeStep(apply, s, conn, e), conn)
  {
    hide ResumeStep;
    ResumeEffect(apply, s, conn, e);
    ResumeOnService(apply, s, conn, e);
    var c := s.threads[e].value;
    var t := ResumeStep(apply, s, conn, e);
    assert ThreadHolds(s, conn, e);
    NotQueued(s, conn, c, SERVICE);
    hide Located;
    hide AllFit;
    hide ArrivedIn;
    hide Served;
    hide OnService;
    ArrivedSame(s.queues[SERVICE], s.tasks, t.tasks);
    var logged := if s.tasks[c].Invoking? && conn[c] != SERVICE then [c] else [];
    if s.tasks[c].Invoking? {
      ServedSnoc(s.log, t.log[|s.log|], conn);
    }
    assert Served(t.log, conn) == Served(s.log, conn) + logged;
    Regroup(Served(s.log, conn), logged, OnService(t, conn), ArrivedIn(t.queues[SERVICE], t.tasks));
  }

  lemma Regroup(a: seq<nat>, b: seq<nat>, c: seq<nat>, d: seq<nat>)
    ensures a + (b + c) + d == (a + b) + c + d
  {
  }

  // ---------------------------------------------------------------- whole runs

  ghost predicate Inv<S, Q, R>(apply: (S, Q) -> (S, R), init: S, s: State<S, Q, R>, conn: seq<nat>) {
    AllFit(s, conn) && Sequential(apply, init, s) && Answered(s) && InOrder(s, conn)
  }

  /** Every connection waits to receive. */
  ghost predicate Initial<S, Q, R>(init: S, s: State<S, Q, R>, conn: seq<nat>) {
    && Shaped(s, conn) && s.store == init && s.log == [] && s.arrivals == []
    && (forall e :: 0 <= e < |s.queues| ==> s.queues[e] == [] && s.outboxes[e] == [] && s.threads[e].None?)
    && (forall c :: 0 <= c < |conn| ==> s.places[c] == Kernel && s.tasks[c] == Receiving && s.sent[c] == [])
  }

  lemma InitialInv<S, Q, R>(apply: (S, Q) -> (S, R), init: S, s: State<S, Q, R>, conn: seq<nat>)
    requires Initial(init, s, conn)
    ensures Inv(apply, init, s, conn)
  {
    forall c | 0 <= c < |conn| ensures PlaceHolds(s, conn, c) && Fits(s, conn, c) {
    }
    assert Located(s, conn);
    assert ArrivedIn(s.queues[SERVICE], s.tasks) == [];
  }

  lemma CompleteRest<S, Q, R>(apply: (S, Q) -> (S, R), init: S, s: State<S, Q, R>, conn: seq<nat>, c: nat,
                              task: Task<S, Q, R>)
    requires CanComplete(s, conn, c) && Sequential(apply, init, s) && Answered(s) && (task.Received? || task.Written?)
    ensures Sequential(apply, init, CompleteStep(s, conn, c, task)) && Answered(CompleteStep(s, conn, c, task))
  {
    hide Fold;
    hide ReplyAt;
    hide RepliesFor;
  }

  lemma CompleteKeeps<S, Q, R>(apply: (S, Q) -> (S, R), init: S, s: State<S, Q, R>, conn: seq<nat>, c: nat,
                               task: Task<S, Q, R>)
    requires Inv(apply, init, s, conn) && CanComplete(s, conn, c) && (task.Received? || task.Written?)
    ensures Inv(apply, init, CompleteStep(s, conn, c, task), conn)
  {
    CompleteFits(s, conn, c, task);
    CompleteOrder(s, conn, c, task);
    CompleteRest(apply, init, s, conn, c, task);
  }

  lemma StepKeeps<S, Q, R>(apply: (S, Q) -> (S, R), init: S, s: State<S, Q, R>, conn: seq<nat>, step: Step<Q>)
    requires Inv(apply, init, s, conn) && Enabled(s, conn, step)
    ensures Inv(apply, init, Next(apply, s, conn, step), conn)
  {
    hide AllFit;
    hide Sequential;
    hide Answered;
    hide InOrder;
    hide Located;
    hide ResumeStep;
    hide CompleteStep;
    hide DispatchStep;
    hide DeliverStep;
    match step
    case Receive(c, input) => CompleteKeeps(apply, init, s, conn, c, Received(input));
    case Write(c, ok) => CompleteKeeps(apply, init, s, conn, c, Written(ok));
    case Dispatch(e) =>
      DispatchFits(s, conn, e);
      DispatchOrder(s, conn, e);
      SameRest(apply, init, s, DispatchStep(s, conn, e), conn, step);
    case Deliver(e) =>
      DeliverFits(s, conn, e);
      DeliverOrder(s, conn, e);
      SameRest(apply, init, s, DeliverStep(s, conn, e), conn, step);
    case Resume(e) =>
      ResumeFits(apply, s, conn, e);
      ResumeOrder(apply, s, conn, e);
      ResumeSequential(apply, init, s, conn, e);
      ResumeAnswered(apply, s, conn, e);
  }

  lemma SameRest<S, Q, R>(apply: (S, Q) -> (S, R), init: S, s: State<S, Q, R>, t: State<S, Q, R>, conn: seq<nat>,
                          step: Step<Q>)
    requires Enabled(s, conn, step) && (step.Dispatch? || step.Deliver?) && t == Next(apply, s, conn, step)
    requires Sequential(apply, init, s) && Answered(s)
    ensures Sequential(apply, init, t) && Answered(t)
  {
    hide Located;
    hide Fold;
    hide ReplyAt;
    hide RepliesFor;
  }

  ghost predicate IsRun<S, Q, R>(apply: (S, Q) -> (S, R), states: seq<State<S, Q, R>>, steps: seq<Step<Q>>,
                                 conn: seq<nat>) {
    && |states| == |steps| + 1
    && forall i :: 0 <= i < |steps| ==>
        Enabled(states[i], conn, steps[i]) && states[i + 1] == Next(apply, states[i], conn, steps[i])
  }

  /** Serialised hops. In every state of every run each continuation is in one place, commands run only on
      the service executor and never overlap, the store and all replies are those of the logged commands run
      one after the other, and hops are served in the order in which they reached the service queue. */
  lemma {:induction false} SerialisedHops<S, Q, R>(apply: (S, Q) -> (S, R), init: S, states: seq<State<S, Q, R>>,
                                                   steps: seq<Step<Q>>, conn: seq<nat>, n: nat)
    requires IsRun(apply, states, steps, conn) && Initial(init, states[0], conn) && n < |states|
    ensures Inv(apply, init, states[n], conn)
  {
    if n == 0 {
      InitialInv(apply, init, states[0], conn);
    } else {
      SerialisedHops(apply, init, states, steps, conn, n - 1);
      StepKeeps(apply, init, states[n - 1], conn, steps[n - 1]);
    }
  }

  /** What clients see: each was sent a prefix of its replies in the sequential execution, and the commands of
      hopping clients are a prefix, in order, of the arrivals at the service queue. */
  lemma ClientsSee<S, Q, R>(apply: (S, Q) -> (S, R), init: S, s: State<S, Q, R>, conn: seq<nat>, c: nat)
    requires Inv(apply, init, s, conn) && c < |conn|
    ensures s.sent[c] <= RepliesFor(s.log, c) && |RepliesFor(s.log, c)| <= |s.sent[c]| + 1
    ensures Served(s.log, conn) <= s.arrivals
  {
    assert |s.tasks| == |conn|;
    hide Located;
    hide RepliesFor;
    hide Served;
  }

  lemma StepAccounted<S, Q, R>(apply: (S, Q) -> (S, R), s: State<S, Q, R>, conn: seq<nat>, steps: seq<Step<Q>>,
                               step: Step<Q>, c: nat)
    requires Shaped(s, conn) && c < |conn| && Enabled(s, conn, step)
    requires Accounted(Heard(steps, c), Wrote(steps, c), s.log, c, s.tasks[c])
    ensures var t, more := Next(apply, s, conn, step), steps + [step];
            c < |t.tasks| && Accounted(Heard(more, c), Wrote(more, c), t.log, c, t.tasks[c])
  {
    HeardSnoc(steps, step, c);
    hide Heard;
    hide Wrote;
    hide Located;
    hide Accounted;
    hide ResumeStep;
    match step
    case Receive(d, input) =>
      if d == c {
        ReceiveAccounted(Heard(steps, c), Wrote(steps, c), s.log, c, s.tasks[c], input);
      }
    case Write(d, ok) =>
      if d == c {
        WriteAccounted(Heard(steps, c), Wrote(steps, c), s.log, c, s.tasks[c], ok);
      }
    case Dispatch(e) =>
    case Deliver(e) =>
    case Resume(e) => ResumeAccounted(apply, s, conn, e, Heard(steps, c), Wrote(steps, c), c);
  }

  lemma StepOfRun<S, Q, R>(apply: (S, Q) -> (S, R), states: seq<State<S, Q, R>>, steps: seq<Step<Q>>, conn: seq<nat>,
                           n: nat)
    requires IsRun(apply, states, steps, conn) && n + 1 < |states|
    ensures |states| == |steps| + 1 && Enabled(states[n], conn, steps[n])
    ensures states[n + 1] == Next(apply, states[n], conn, steps[n])
  {
    hide Enabled;
    hide Next;
  }

  lemma InitialAccounted<S, Q, R>(init: S, s: State<S, Q, R>, conn: seq<nat>, steps: seq<Step<Q>>, c: nat)
    requires Initial(init, s, conn) && c < |conn| && steps == []
    ensures c < |s.tasks| && Accounted(Heard(steps, c), Wrote(steps, c), s.log, c, s.tasks[c])
  {
  }

  lemma InvShaped<S, Q, R>(apply: (S, Q) -> (S, R), init: S, s: State<S, Q, R>, conn: seq<nat>)
    requires Inv(apply, init, s, conn)
    ensures Shaped(s, conn)
  {
  }

  /** Requests are conserved. In every state of every run what the client's receives brought is accounted for: no
      request is lost, run twice or run out of turn, and none is left unanswered. */
  lemma {:induction false} RequestsAccounted<S, Q, R>(apply: (S, Q) -> (S, R), init: S, states: seq<State<S, Q, R>>,
                                                      steps: seq<Step<Q>>, conn: seq<nat>, n: nat, c: nat)
    requires IsRun(apply, states, steps, conn) && Initial(init, states[0], conn) && n < |states| && c < |conn|
    ensures c < |states[n].tasks|
    ensures Accounted(Heard(steps[..n], c), Wrote(steps[..n], c), states[n].log, c, states[n].tasks[c])
  {
    hide *;
    if n == 0 {
      InitialAccounted(init, states[0], conn, steps[..0], c);
    } else {
      RequestsAccounted(apply, init, states, steps, conn, n - 1, c);
      SerialisedHops(apply, init, states, steps, conn, n - 1);
      InvShaped(apply, init, states[n - 1], conn);
      StepOfRun(apply, states, steps, conn, n - 1);
      StepAccounted(apply, states[n - 1], conn, steps[..n - 1], steps[n - 1], c);
      assert steps[..n] == steps[..n - 1] + [steps[n - 1]];
    }
  }

  // ---------------------------------------------------------------- no coroutine is stuck

  function Stage<S, Q, R>(task: Task<S, Q, R>): nat {
    match task
    case Received(_) => 5
    case Arrived(_) => 4
    case Invoking(_, _) => 3
    case Invoked(_) => 2
    case Returned(_) => 1
    case Written(_) => 1
    case _ => 0
  }

  /** A bound on the steps a continuation takes before it waits for the kernel again. */
  function Distance<S, Q, R>(place: Place, task: Task<S, Q, R>): nat {
    match place
    case Kernel => 0
    case Closed => 0
    case OnThread(_) => 3 * Stage(task)
    case InQueue(_, _) => 3 * Stage(task) + 1
    case InOutbox(_, _) => 3 * Stage(task) + 2
  }

  ghost function Work<S, Q, R>(places: seq<Place>, tasks: seq<Task<S, Q, R>>): nat
    requires |places| == |tasks|
  {
    if places == [] then 0 else Distance(places[0], tasks[0]) + Work(places[1..], tasks[1..])
  }

  lemma {:induction false} WorkFalls<S, Q, R>(p: seq<Place>, a: seq<Task<S, Q, R>>, q: seq<Place>,
                                              b: seq<Task<S, Q, R>>, c: nat)
    requires |p| == |a| == |q| == |b| && c < |p|
    requires forall d :: 0 <= d < |p| && d != c ==> p[d] == q[d] && a[d] == b[d]
    requires Distance(q[c], b[c]) < Distance(p[c], a[c])
    ensures Work(q, b) < Work(p, a)
  {
    if c == 0 {
      assert p[1..] == q[1..] && a[1..] == b[1..];
    } else {
      WorkFalls(p[1..], a[1..], q[1..], b[1..], c - 1);
    }
  }

  /** The executors' own steps, as against those of the peer and the kernel. */
  predicate Own<Q>(step: Step<Q>) {
    step.Dispatch? || step.Deliver? || step.Resume?
  }

  /** The client whose continuation a step moves. */
  ghost function Mover<S, Q, R>(s: State<S, Q, R>, conn: seq<nat>, step: Step<Q>): nat
    requires Enabled(s, conn, step) && Own(step)
  {
    match step
    case Dispatch(e) => s.queues[e][0]
    case Deliver(e) => s.outboxes[e][0].client
    case Resume(e) => s.threads[e].value
  }

  lemma ResumeCloser<S, Q, R>(apply: (S, Q) -> (S, R), s: State<S, Q, R>, conn: seq<nat>, e: nat)
    requires AllFit(s, conn) && CanResume(s, conn, e)
    ensures var c, t := s.threads[e].value, ResumeStep(apply, s, conn, e);
            && c < |conn| == |s.places| == |s.tasks| == |t.places| == |t.tasks|
            && (forall d :: 0 <= d < |conn| && d != c ==> t.places[d] == s.places[d] && t.tasks[d] == s.tasks[d])
            && Distance(t.places[c], t.tasks[c]) < Distance(s.places[c], s.tasks[c])
  {
    LeaveThreadKeeps(s, conn, e, Kernel);
    assert ThreadHolds(s, conn, e) && Fits(s, conn, s.threads[e].value);
    hide AllFit;
    hide Located;
  }

  lemma OwnCloser<S, Q, R>(apply: (S, Q) -> (S, R), s: State<S, Q, R>, conn: seq<nat>, step: Step<Q>)
    requires AllFit(s, conn) && Enabled(s, conn, step) && Own(step)
    ensures var c, t := Mover(s, conn, step), Next(apply, s, conn, step);
            && c < |conn| == |s.places| == |s.tasks| == |t.places| == |t.tasks|
            && (forall d :: 0 <= d < |conn| && d != c ==> t.places[d] == s.places[d] && t.tasks[d] == s.tasks[d])
            && Distance(t.places[c], t.tasks[c]) < Distance(s.places[c], s.tasks[c])
  {
    match step
    case Dispatch(e) =>
      LeaveQueueKeeps(s, conn, e);
      assert QueueHolds(s, conn, e, 0);
      hide AllFit;
      hide Located;
    case Deliver(e) =>
      LeaveOutboxKeeps(s, conn, e);
      assert OutboxHolds(s, conn, e, 0);
      hide AllFit;
      hide Located;
    case Resume(e) =>
      ResumeCloser(apply, s, conn, e);
      hide ResumeStep;
      hide AllFit;
      hide Located;
  }

  /** Every continuation waits for the kernel or is gone. */
  ghost predicate Settled<S, Q, R>(s: State<S, Q, R>) {
    forall c :: 0 <= c < |s.places| ==> s.places[c] == Kernel || s.places[c] == Closed
  }

  /** While a continuation does not wait for the kernel, some executor can go on. */
  lemma SomeCanGoOn<S, Q, R>(s: State<S, Q, R>, conn: seq<nat>) returns (step: Step<Q>)
    requires Located(s, conn) && !Settled(s)
    ensures Own(step) && Enabled(s, conn, step)
  {
    var c: nat :| c < |s.places| && s.places[c] != Kernel && s.places[c] != Closed;
    assert PlaceHolds(s, conn, c);
    match s.places[c]
    case InQueue(e, _) => step := if s.threads[e].None? then Dispatch(e) else Resume(e);
    case InOutbox(e, _) => step := Deliver(e);
    case OnThread(e) => step := Resume(e);
  }

  lemma RunFrom<S, Q, R>(apply: (S, Q) -> (S, R), s: State<S, Q, R>, step: Step<Q>, states: seq<State<S, Q, R>>,
                         steps: seq<Step<Q>>, conn: seq<nat>)
    requires IsRun(apply, states, steps, conn) && Enabled(s, conn, step) && states[0] == Next(apply, s, conn, step)
    ensures IsRun(apply, [s] + states, [step] + steps, conn)
  {
    hide Enabled;
    hide Next;
    var a, b := [s] + states, [step] + steps;
    forall i | 0 <= i < |b| ensures Enabled(a[i], conn, b[i]) && a[i + 1] == Next(apply, a[i], conn, b[i]) {
      if i > 0 {
        assert Enabled(states[i - 1], conn, steps[i - 1]);
      }
    }
  }

  lemma OwnFalls<S, Q, R>(apply: (S, Q) -> (S, R), s: State<S, Q, R>, conn: seq<nat>, step: Step<Q>)
    requires AllFit(s, conn) && Enabled(s, conn, step) && Own(step)
    ensures var t := Next(apply, s, conn, step);
            && |s.places| == |s.tasks| && |t.places| == |t.tasks|
            && Work(t.places, t.tasks) < Work(s.places, s.tasks)
  {
    OwnCloser(apply, s, conn, step);
    hide Enabled;
    hide Next;
    hide Located;
    hide AllFit;
    hide Work;
    var t := Next(apply, s, conn, step);
    WorkFalls(s.places, s.tasks, t.places, t.tasks, Mover(s, conn, step));
  }

  /** From every state of the invariant the executors' own steps reach one in which all continuations wait. */
  lemma {:induction false} Drain<S, Q, R>(apply: (S, Q) -> (S, R), init: S, s: State<S, Q, R>, conn: seq<nat>)
    returns (states: seq<State<S, Q, R>>, steps: seq<Step<Q>>)
    requires Inv(apply, init, s, conn)
    ensures IsRun(apply, states, steps, conn) && states[0] == s
    ensures forall i :: 0 <= i < |steps| ==> Own(steps[i])
    ensures Inv(apply, init, states[|steps|], conn) && Settled(states[|steps|])
    decreases assert |s.places| == |s.tasks|; Work(s.places, s.tasks)
  {
    hide Enabled;
    hide Next;
    hide Work;
    hide Located;
    hide Sequential;
    hide Answered;
    hide InOrder;
    hide Settled;
    hide Fits;
    if Settled(s) {
      states, steps := [s], [];
    } else {
      var step := SomeCanGoOn(s, conn);
      var t := Next(apply, s, conn, step);
      StepKeeps(apply, init, s, conn, step);
      OwnFalls(apply, s, conn, step);
      var laterStates, laterSteps := Drain(apply, init, t, conn);
      RunFrom(apply, s, step, laterStates, laterSteps, conn);
      states, steps := [s] + laterStates, [step] + laterSteps;
    }
  }

  lemma {:induction false} OwnSilent<Q>(steps: seq<Step<Q>>, own: seq<Step<Q>>, c: nat)
    requires forall i :: 0 <= i < |own| ==> Own(own[i])
    ensures Heard(steps + own, c) == Heard(steps, c) && Wrote(steps + own, c) == Wrote(steps, c)
    decreases |own|
  {
    hide Heard;
    hide Wrote;
    if own == [] {
      assert steps + own == steps;
    } else {
      var last := own[|own| - 1];
      OwnSilent(steps, own[..|own| - 1], c);
      HeardSnoc(steps + own[..|own| - 1], last, c);
      assert steps + own == steps + own[..|own| - 1] + [last];
    }
  }

  /** A run that goes on. */
  lemma JoinRuns<S, Q, R>(apply: (S, Q) -> (S, R), a: seq<State<S, Q, R>>, aSteps: seq<Step<Q>>, b: seq<State<S, Q, R>>,
                          bSteps: seq<Step<Q>>, conn: seq<nat>)
    requires IsRun(apply, a, aSteps, conn) && IsRun(apply, b, bSteps, conn) && a[|aSteps|] == b[0]
    ensures IsRun(apply, a + b[1..], aSteps + bSteps, conn)
  {
    hide Enabled;
    hide Next;
    var states, steps, n := a + b[1..], aSteps + bSteps, |aSteps|;
    forall i | 0 <= i < |steps|
      ensures Enabled(states[i], conn, steps[i]) && states[i + 1] == Next(apply, states[i], conn, steps[i])
    {
      if i >= n {
        assert Enabled(b[i - n], conn, bSteps[i - n]) && states[i] == b[i - n] && states[i + 1] == b[i - n + 1];
      } else {
        assert Enabled(a[i], conn, aSteps[i]) && states[i] == a[i] && states[i + 1] == a[i + 1];
      }
    }
  }

  /** All that a client's receives brought was seen to, and the client waits accordingly. */
  ghost predicate ServedAll<S, Q, R>(s: State<S, Q, R>, c: nat, heard: seq<Input<Q>>, wrote: seq<bool>)
    requires c < |s.places| == |s.tasks| == |s.sent|
  {
    && RequestsFor(s.log, c) == Requests(heard) && s.sent[c] == RepliesFor(s.log, c)
    && (s.places[c] == Closed <==> Ended in heard || false in wrote)
    && (s.places[c] != Closed ==>
          s.places[c] == Kernel && s.tasks[c] == if Owed(heard) == |wrote| then Receiving else Writing)
  }

  /** No request is starved by the executors. Every run goes on, by steps of the executors alone, to a state in
      which every request that any client's receives brought was run, in the order received, and every reply
      was handed to the kernel. A connection is then closed exactly if its receives brought the end or a write
      failed; otherwise it awaits a write if one is owed, else a receive. */
  lemma EveryRequestServed<S, Q, R>(apply: (S, Q) -> (S, R), init: S, states: seq<State<S, Q, R>>, steps: seq<Step<Q>>,
                                    conn: seq<nat>)
    returns (more: seq<State<S, Q, R>>, own: seq<Step<Q>>)
    requires IsRun(apply, states, steps, conn) && Initial(init, states[0], conn)
    ensures IsRun(apply, states + more, steps + own, conn)
    ensures forall i :: 0 <= i < |own| ==> Own(own[i])
    ensures var t := (states + more)[|steps + own|];
            && Inv(apply, init, t, conn) && Settled(t)
            && Shaped(t, conn) && forall c :: 0 <= c < |conn| ==>
                ServedAll(t, c, Heard(steps, c), Wrote(steps, c))
  {
    SerialisedHops(apply, init, states, steps, conn, |steps|);
    var later, laterSteps := Drain(apply, init, states[|steps|], conn);
    more, own := later[1..], laterSteps;
    JoinRuns(apply, states, steps, later, laterSteps, conn);
    var all, allSteps := states + more, steps + own;
    var t := all[|allSteps|];
    assert t == later[|laterSteps|];
    forall c | 0 <= c < |conn|
      ensures ServedAll(t, c, Heard(steps, c), Wrote(steps, c))
    {
      RequestsAccounted(apply, init, all, allSteps, conn, |allSteps|, c);
      assert allSteps[..|allSteps|] == allSteps;
      OwnSilent(steps, own, c);
      SettledServed(apply, init, t, conn, Heard(steps, c), Wrote(steps, c), c);
    }
  }

  lemma SettledServed<S, Q, R>(apply: (S, Q) -> (S, R), init: S, s: State<S, Q, R>, conn: seq<nat>,
                               heard: seq<Input<Q>>, wrote: seq<bool>, c: nat)
    requires Inv(apply, init, s, conn) && Settled(s) && c < |conn|
    requires Accounted(heard, wrote, s.log, c, s.tasks[c])
    ensures ServedAll(s, c, heard, wrote)
  {
    assert Fits(s, conn, c);
    hide Located;
    hide Owed;
    hide Requests;
    hide RequestsFor;
    hide RepliesFor;
  }
}
