/**
 * The durable mailbox of a room: reliable frames wait in a bounded queue for each role until the
 * recipient acknowledges them or they expire. Node keeps the queues in a table, the Durable Object
 * in its storage.
 */
module Mailbox {
  import opened Lists
  import opened Text
  import opened Wire
  import opened MailboxPolicy

  const DEFAULT_QUEUE_TTL_MS := 15 * 60 * 1000
  const MAX_QUEUE_BYTES := 1800000

  datatype Reply = Stored | Duplicate | Oversize | Expired | NoRoom | Full

  // ---- one operation as a function of the queue ----

  /** Which rows a read still finds: a bare string never expires in a Durable Object, always in Node. */
  function LiveIn(backend: Backend, now: int): Row -> bool {
    (row: Row) =>
      if row.Item? && row.expiresAt.Some? then row.expiresAt.value > now else backend.Worker?
  }

  /** The Durable Object's `flushTo` reads rows without an expiry time differently from its `queue`. */
  function Pending(now: int): Row -> bool {
    (row: Row) => row.Legacy? || (row.expiresAt.Some? && row.expiresAt.value > now)
  }

  function NotFor(deliveryId: string): Row -> bool { (row: Row) => IdOf(row) != Some(deliveryId) }

  function FrameLimit(backend: Backend, role: Role, deliveryId: Option<string>): nat {
    if backend.Node? then SubmissionLimits(role, deliveryId).frameBytes else MAX_QUEUE_BYTES
  }

  function QueueLimit(backend: Backend, role: Role, deliveryId: Option<string>): nat {
    if backend.Node? then SubmissionLimits(role, deliveryId).queueBytes else MAX_QUEUE_BYTES
  }

  /** A frame as it arrives. */
  datatype Frame = Frame(raw: Text, deliveryId: Option<string>, expiresAt: Option<int>)

  function RowFor(f: Frame, now: int): Row {
    Item(f.raw, Some(Utf8Length(f.raw)), f.deliveryId,
         Some(if f.expiresAt.Some? then f.expiresAt.value else now + DEFAULT_QUEUE_TTL_MS))
  }

  predicate Known(backend: Backend, live: seq<Row>, deliveryId: Option<string>) {
    if backend.Node? then exists row :: row in live && IdOf(row) == deliveryId
    else deliveryId.Some? && deliveryId.value != "" && exists row :: row in live && IdOf(row) == deliveryId
  }

  /** What `enqueue` and `queue` answer for a frame. */
  function EnqueueReply(backend: Backend, role: Role, room: bool, queue: seq<Row>, f: Frame, now: int): Reply {
    if Utf8Length(f.raw) > FrameLimit(backend, role, f.deliveryId) then Oversize
    else if f.expiresAt.Some? && f.expiresAt.value <= now then Expired
    else if backend.Node? && !room then NoRoom
    else
      var live := Filter(queue, LiveIn(backend, now));
      if Known(backend, live, f.deliveryId) then Duplicate
      else if MustRefuse(live, RowFor(f, now), HOLD_LIMIT, QueueLimit(backend, role, f.deliveryId)) then Full
      else Stored
  }

  /** Node also writes back a queue from which expired rows were dropped; the Durable Object only writes when it stores. */
  function EnqueueQueue(backend: Backend, role: Role, room: bool, queue: seq<Row>, f: Frame, now: int): seq<Row> {
    var reply := EnqueueReply(backend, role, room, queue, f, now);
    var live := Filter(queue, LiveIn(backend, now));
    if reply.Stored? then Retain(live, RowFor(f, now), HOLD_LIMIT, QueueLimit(backend, role, f.deliveryId))
    else if backend.Node? && (reply.Duplicate? || reply.Full?) then live
    else queue
  }

  function AcknowledgeQueue(backend: Backend, queue: seq<Row>, deliveryId: string, now: int): seq<Row> {
    Filter(if backend.Node? then Filter(queue, LiveIn(Node, now)) else queue, NotFor(deliveryId))
  }

  predicate Reliable(row: Row) { row.Item? && row.deliveryId.Some? && row.deliveryId.value != "" }

  /**
   * The loop of `flushTo` over rows of which some carry no delivery id: what stays stored and what
   * was sent, when the socket takes `sendable` more frames before it throws.
   */
  function Flush(pending: seq<Row>, matching: set<Text>, sendable: nat): (r: (seq<Row>, seq<Text>)) {
    if pending == [] then ([], [])
    else
      var row := pending[0];
      if row.raw == [] then Flush(pending[1..], matching, sendable)
      else if row.raw !in matching then
        var rest := Flush(pending[1..], matching, sendable);
        ([row] + rest.0, rest.1)
      else if sendable == 0 then (pending, [])
      else
        var rest := Flush(pending[1..], matching, sendable - 1);
        ((if Reliable(row) then [row] else []) + rest.0, [row.raw] + rest.1)
  }

  /** The row is sent: it has text, and the socket is one it is for. */
  function Goes(matching: set<Text>): Row -> bool { (row: Row) => row.raw != [] && row.raw in matching }

  function IsFor(matching: set<Text>): Row -> bool { (row: Row) => row.raw in matching }

  /** The row is still stored after the flush has passed it: it was not for this socket, or awaits its acknowledgement. */
  function Stays(matching: set<Text>): Row -> bool {
    (row: Row) => row.raw != [] && (row.raw !in matching || (row.Item? && row.deliveryId.Some? && row.deliveryId.value != ""))
  }

  /** An unexpired row, or a bare string, that is sent. */
  function Sendable(matching: set<Text>, now: int): Row -> bool {
    (row: Row) => (row.Item? ==> row.expiresAt.Some? && now < row.expiresAt.value) && row.raw != [] && row.raw in matching
  }

  function Texts(rows: seq<Row>): (r: seq<Text>)
    ensures |r| == |rows|
  {
    Map(rows, (row: Row) => row.raw)
  }

  function FirstOf<T>(s: seq<T>, n: nat): seq<T> { if |s| <= n then s else s[..n] }

  /** The queue after `flushTo`; when every pending row is reliable, storage is left alone. */
  function FlushQueue(queue: seq<Row>, matching: set<Text>, sendable: nat, now: int): seq<Row> {
    var pending := Filter(queue, Pending(now));
    if pending != [] && (forall row :: row in pending ==> Reliable(row)) then queue
    else Flush(pending, matching, sendable).0
  }

  // ---- the promise ----

  /** Every row with a delivery id has its own, and rows made by this program carry text, its size and an expiry time. */
  predicate UniqueIds(queue: seq<Row>) {
    forall i, j :: 0 <= i < j < |queue| && Reliable(queue[i]) && Reliable(queue[j]) ==> IdOf(queue[i]) != IdOf(queue[j])
  }

  predicate Complete(row: Row) {
    row.Item? ==>
      row.raw != [] && row.expiresAt.Some? && (row.rawBytes.Some? ==> row.rawBytes.value == Utf8Length(row.raw))
  }

  function Budget(backend: Backend, role: Role): nat {
    if backend.Node? && role.Machine? then 32000000 else 1800000
  }

  predicate Sound(backend: Backend, role: Role, queue: seq<Row>) {
    && UniqueIds(queue)
    && (forall row :: row in queue ==> Complete(row))
    && |queue| <= HOLD_LIMIT && Bytes(queue) <= Budget(backend, role)
  }

  datatype Action = Enqueue(frame: Frame) | Acknowledge(deliveryId: string) | Deliver(matching: set<Text>, sendable: nat)
  datatype Event = Event(now: int, action: Action)

  /** Delivery reads the queue in Node and flushes it in a Durable Object. */
  function Next(backend: Backend, role: Role, queue: seq<Row>, e: Event): seq<Row> {
    match e.action
    case Enqueue(f) => EnqueueQueue(backend, role, true, queue, f, e.now)
    case Acknowledge(deliveryId) => AcknowledgeQueue(backend, queue, deliveryId, e.now)
    case Deliver(matching, sendable) =>
      if backend.Node? then Filter(queue, LiveIn(Node, e.now)) else FlushQueue(queue, matching, sendable, e.now)
  }

  /** A frame is JSON text, never empty. */
  predicate HasText(e: Event) { e.action.Enqueue? ==> e.action.frame.raw != [] }

  lemma {:induction false} FilterSubsequence(queue: seq<Row>, p: Row -> bool)
    requires UniqueIds(queue)
    ensures UniqueIds(Filter(queue, p))
  {
    hide Reliable, IdOf;
    if queue != [] {
      FilterSubsequence(queue[1..], p);
      UniqueCons(queue[0], queue[1..], Filter(queue[1..], p));
    }
  }

  lemma UniqueCons(row: Row, rest: seq<Row>, kept: seq<Row>)
    requires UniqueIds([row] + rest) && UniqueIds(kept) && forall x :: x in kept ==> x in rest
    ensures UniqueIds([row] + kept)
  {
    hide Reliable, IdOf;
    forall x | x in kept && Reliable(row) && Reliable(x) ensures IdOf(row) != IdOf(x) {
      var i :| 0 <= i < |rest| && rest[i] == x;
      assert ([row] + rest)[i + 1] == x && ([row] + rest)[0] == row;
    }
  }

  lemma FilterSound(backend: Backend, role: Role, queue: seq<Row>, p: Row -> bool)
    requires Sound(backend, role, queue)
    ensures Sound(backend, role, Filter(queue, p))
  {
    hide UniqueIds, Complete, RowBytes;
    FilterSubsequence(queue, p);
    FilterAll(queue, (row: Row) => true);
    SumMonotone(queue, p, (row: Row) => true, RowBytes);
  }

  lemma {:induction false} WithoutTransientUnique(queue: seq<Row>, k: nat)
    requires k <= |Filter(queue, Transient())| && UniqueIds(queue)
    ensures UniqueIds(WithoutTransient(queue, k))
  {
    hide UniqueIds, DurableId, IdOf, Reliable;
    if k > 0 {
      TailUnique(queue);
      if DurableId(IdOf(queue[0])) {
        WithoutTransientUnique(queue[1..], k);
        WithoutTransientKeeps(queue[1..], k);
        assert queue == [queue[0]] + queue[1..];
        UniqueCons(queue[0], queue[1..], WithoutTransient(queue[1..], k));
      } else {
        WithoutTransientUnique(queue[1..], k - 1);
      }
    }
  }

  lemma TailUnique(queue: seq<Row>)
    requires queue != [] && UniqueIds(queue)
    ensures UniqueIds(queue[1..])
  {
  }

  lemma RetainSound(backend: Backend, role: Role, live: seq<Row>, incoming: Row, limit: nat)
    requires Sound(backend, role, live) && Complete(incoming) && limit <= Budget(backend, role)
    requires !MustRefuse(live, incoming, HOLD_LIMIT, limit)
    requires Reliable(incoming) ==> forall row :: row in live ==> IdOf(row) != IdOf(incoming)
    ensures Sound(backend, role, Retain(live, incoming, HOLD_LIMIT, limit))
  {
    RetainKeepsPromises(live, incoming, HOLD_LIMIT, limit);
    var n := Eviction(live, incoming, HOLD_LIMIT, limit, 0);
    WithoutTransientUnique(live, n);
    WithoutTransientKeeps(live, n);
    hide UniqueIds, MustRefuse, Complete, WithoutTransient, Eviction;
    UniqueAppend(WithoutTransient(live, n), incoming);
  }

  lemma UniqueAppend(rows: seq<Row>, row: Row)
    requires UniqueIds(rows) && (Reliable(row) ==> forall x :: x in rows ==> IdOf(x) != IdOf(row))
    ensures UniqueIds(rows + [row])
  {
  }

  lemma {:induction false} FlushSubset(pending: seq<Row>, matching: set<Text>, sendable: nat)
    requires UniqueIds(pending)
    ensures var kept := Flush(pending, matching, sendable).0;
            && UniqueIds(kept) && |kept| <= |pending| && Bytes(kept) <= Bytes(pending)
            && forall row :: row in kept ==> row in pending
  {
    hide Reliable, IdOf, RowBytes;
    if pending != [] {
      TailUnique(pending);
      hide UniqueIds;
      var less := if pending[0].raw != [] && pending[0].raw in matching && sendable > 0 then sendable - 1 else sendable;
      FlushSubset(pending[1..], matching, less);
      var kept := Flush(pending[1..], matching, less).0;
      assert pending == [pending[0]] + pending[1..];
      UniqueCons(pending[0], pending[1..], kept);
      assert ([pending[0]] + kept)[1..] == kept;
      assert [] + kept == kept;
    }
  }

  /** Distinct ids, at most 100 rows and the byte budget, whatever happens to the mailbox. */
  lemma StepSound(backend: Backend, role: Role, queue: seq<Row>, e: Event)
    requires Sound(backend, role, queue) && HasText(e)
    ensures Sound(backend, role, Next(backend, role, queue, e))
  {
    match e.action
    case Enqueue(f) => EnqueueSound(backend, role, queue, f, e.now);
    case Acknowledge(deliveryId) =>
      hide Sound;
      FilterSound(backend, role, queue, LiveIn(Node, e.now));
      FilterSound(backend, role, Filter(queue, LiveIn(Node, e.now)), NotFor(deliveryId));
      FilterSound(backend, role, queue, NotFor(deliveryId));
    case Deliver(matching, sendable) =>
      FilterSound(backend, role, queue, LiveIn(Node, e.now));
      FilterSound(backend, role, queue, Pending(e.now));
      var pending := Filter(queue, Pending(e.now));
      hide UniqueIds, Complete, Bytes;
      FlushSubset(pending, matching, sendable);
  }

  lemma EnqueueSound(backend: Backend, role: Role, queue: seq<Row>, f: Frame, now: int)
    requires Sound(backend, role, queue) && f.raw != []
    ensures Sound(backend, role, EnqueueQueue(backend, role, true, queue, f, now))
  {
    var live := Filter(queue, LiveIn(backend, now));
    FilterSound(backend, role, queue, LiveIn(backend, now));
    hide Sound, MustRefuse, Utf8Length, Retain;
    if EnqueueReply(backend, role, true, queue, f, now).Stored? {
      hide LiveIn, DurableId;
      RetainSound(backend, role, live, RowFor(f, now), QueueLimit(backend, role, f.deliveryId));
    }
  }

  lemma {:induction false} FlushKeeps(pending: seq<Row>, matching: set<Text>, sendable: nat, row: Row)
    requires row in pending && row.raw != []
    ensures Reliable(row) ==> row in Flush(pending, matching, sendable).0
    ensures row in Flush(pending, matching, sendable).0 || row.raw in Flush(pending, matching, sendable).1
  {
    hide Reliable;
    if row in pending[1..] {
      var less := if pending[0].raw != [] && pending[0].raw in matching && sendable > 0 then sendable - 1 else sendable;
      FlushKeeps(pending[1..], matching, less, row);
    } else {
      assert pending == [pending[0]] + pending[1..];
    }
  }

  lemma DurableIsReliable(row: Row)
    requires Durable()(row)
    ensures Reliable(row)
  {
  }

  /** No operation but its own acknowledgement takes away a durable row that has not expired. */
  lemma StepKeepsPromise(backend: Backend, role: Role, queue: seq<Row>, e: Event, row: Row)
    requires row in queue && Durable()(row) && Complete(row) && e.now < row.expiresAt.value
    requires e.action.Acknowledge? ==> Some(e.action.deliveryId) != IdOf(row)
    ensures row in Next(backend, role, queue, e)
  {
    DurableIsReliable(row);
    hide MustRefuse, Utf8Length, Retain, DurableId, Reliable, Flush, EnqueueReply;
    var live := Filter(queue, LiveIn(backend, e.now));
    assert row in live;
    match e.action
    case Enqueue(f) =>
      if EnqueueReply(backend, role, true, queue, f, e.now).Stored? {
        RetainHolds(live, RowFor(f, e.now), QueueLimit(backend, role, f.deliveryId), row);
      }
    case Acknowledge(deliveryId) =>
    case Deliver(matching, sendable) =>
      var pending := Filter(queue, Pending(e.now));
      FlushKeeps(pending, matching, sendable, row);
  }

  lemma RetainHolds(live: seq<Row>, incoming: Row, limit: nat, row: Row)
    requires row in live && Durable()(row)
    ensures row in Retain(live, incoming, HOLD_LIMIT, limit)
  {
    hide DurableId, MustRefuse;
    if !MustRefuse(live, incoming, HOLD_LIMIT, limit) {
      RetainKeepsPromises(live, incoming, HOLD_LIMIT, limit);
      hide Retain;
      assert row in Filter(live, Durable());
    }
  }

  // ---- what the sender is told ----

  datatype Outcome = Forward | Drop(reason: string) | Close(token: string)

  function QueueOutcome(reply: Reply, deliveryId: Option<string>): Outcome {
    match reply
    case Stored => Forward
    case Duplicate => Forward
    case Oversize => if DurableId(deliveryId) then Drop("oversize") else Close("oversize")
    case Full => Drop("full")
    case NoRoom => Drop("no-room")
    case Expired => Drop("expired")
  }

  predicate Holds(queue: seq<Row>, deliveryId: Option<string>) { exists row :: row in queue && IdOf(row) == deliveryId }

  /**
   * A frame with a delivery id is forwarded if and only if it fits a frame, has not expired, its
   * room exists and its row is now stored. A durable one never closes the sender's socket.
   */
  lemma ForwardedIffHeld(backend: Backend, role: Role, room: bool, queue: seq<Row>, f: Frame, now: int)
    requires f.deliveryId.Some? && f.deliveryId.value != ""
    ensures QueueOutcome(EnqueueReply(backend, role, room, queue, f, now), f.deliveryId).Forward? <==>
            && Utf8Length(f.raw) <= FrameLimit(backend, role, f.deliveryId)
            && (f.expiresAt.None? || now < f.expiresAt.value)
            && (backend.Node? ==> room)
            && Holds(Filter(EnqueueQueue(backend, role, room, queue, f, now), LiveIn(backend, now)), f.deliveryId)
    ensures DurableId(f.deliveryId) ==>
              !QueueOutcome(EnqueueReply(backend, role, room, queue, f, now), f.deliveryId).Close?
  {
    hide MustRefuse, Utf8Length, Retain, DurableId;
    var reply := EnqueueReply(backend, role, room, queue, f, now);
    var after := EnqueueQueue(backend, role, room, queue, f, now);
    var live := Filter(queue, LiveIn(backend, now));
    if reply.Stored? {
      RetainKeepsPromises(live, RowFor(f, now), HOLD_LIMIT, QueueLimit(backend, role, f.deliveryId));
      assert RowFor(f, now) in after;
      assert RowFor(f, now) in Filter(after, LiveIn(backend, now));
    } else {
      FilterTwice(queue, LiveIn(backend, now), LiveIn(backend, now), LiveIn(backend, now));
    }
  }

  // ---- whole runs ----

  predicate StepsAt(backend: Backend, role: Role, run: seq<Event>, h: seq<seq<Row>>, k: nat)
    requires k < |run| && |h| == |run| + 1
  {
    h[k + 1] == Next(backend, role, h[k], run[k])
  }

  /** The queue before the first event and after each. */
  function Queues(backend: Backend, role: Role, start: seq<Row>, run: seq<Event>): (h: seq<seq<Row>>)
    ensures |h| == |run| + 1 && h[0] == start
    ensures forall k :: 0 <= k < |run| ==> StepsAt(backend, role, run, h, k)
  {
    if run == [] then [start] else
      var n := |run| - 1;
      var h := Queues(backend, role, start, run[..n]);
      var r := h + [Next(backend, role, h[n], run[n])];
      hide Next;
      assert forall k :: 0 <= k < n ==> StepsAt(backend, role, run, r, k) by {
        forall k | 0 <= k < n ensures StepsAt(backend, role, run, r, k) {
          assert StepsAt(backend, role, run[..n], h, k);
        }
      }
      r
  }

  /** From a sound queue, every reachable queue is sound. */
  lemma {:induction false} ReachableSound(backend: Backend, role: Role, start: seq<Row>, run: seq<Event>, k: nat)
    requires Sound(backend, role, start) && k <= |run| && forall i :: 0 <= i < |run| ==> HasText(run[i])
    ensures Sound(backend, role, Queues(backend, role, start, run)[k])
  {
    if k > 0 {
      hide Next, Sound;
      ReachableSound(backend, role, start, run, k - 1);
      var h := Queues(backend, role, start, run);
      assert StepsAt(backend, role, run, h, k - 1);
      StepSound(backend, role, h[k - 1], run[k - 1]);
    }
  }

  /** Between two points of a run a row's id is not acknowledged and its expiry does not come. */
  predicate Undisturbed(run: seq<Event>, from: nat, to: nat, row: Row)
    requires from <= to <= |run| && row.Item? && row.expiresAt.Some?
  {
    forall j :: from <= j < to ==>
      run[j].now < row.expiresAt.value
      && (run[j].action.Acknowledge? ==> Some(run[j].action.deliveryId) != row.deliveryId)
  }

  lemma {:induction false} HeldAlong(backend: Backend, role: Role, start: seq<Row>, run: seq<Event>, from: nat, to: nat, row: Row)
    requires from <= to <= |run| && Durable()(row) && Complete(row)
    requires row in Queues(backend, role, start, run)[from]
    requires row.Item? && Undisturbed(run, from, to, row)
    ensures row in Queues(backend, role, start, run)[to]
  {
    hide Next, DurableId;
    if from < to {
      HeldAlong(backend, role, start, run, from, to - 1, row);
      var h := Queues(backend, role, start, run);
      assert StepsAt(backend, role, run, h, to - 1);
      StepKeepsPromise(backend, role, h[to - 1], run[to - 1], row);
    }
  }

  /**
   * The promise. Once a durable submission has been answered stored or duplicate, there is a row
   * with its id that is in every later queue until that id is acknowledged or the row expires. For
   * a stored submission it is the submission's own text, for as long as it asked.
   */
  lemma Promise(backend: Backend, role: Role, start: seq<Row>, run: seq<Event>, at: nat) returns (row: Row)
    requires Sound(backend, role, start) && at < |run| && forall i :: 0 <= i < |run| ==> HasText(run[i])
    requires run[at].action.Enqueue? && DurableId(run[at].action.frame.deliveryId)
    requires var queue := Queues(backend, role, start, run)[at];
             EnqueueReply(backend, role, true, queue, run[at].action.frame, run[at].now) in {Stored, Duplicate}
    ensures IdOf(row) == run[at].action.frame.deliveryId && Complete(row) && run[at].now < row.expiresAt.value
    ensures EnqueueReply(backend, role, true, Queues(backend, role, start, run)[at], run[at].action.frame, run[at].now).Stored?
            ==> row == Item(run[at].action.frame.raw, Some(Utf8Length(run[at].action.frame.raw)), run[at].action.frame.deliveryId,
                            Some(if run[at].action.frame.expiresAt.Some? then run[at].action.frame.expiresAt.value
                                 else run[at].now + 900000))
    ensures forall to :: at < to <= |run| && Undisturbed(run, at + 1, to, row) ==> row in Queues(backend, role, start, run)[to]
  {
    var h := Queues(backend, role, start, run);
    ReachableSound(backend, role, start, run, at);
    assert StepsAt(backend, role, run, h, at);
    row := AnsweredRow(backend, role, h[at], run[at]);
    hide Next, EnqueueReply, Sound;
    forall to | at < to <= |run| && Undisturbed(run, at + 1, to, row) ensures row in Queues(backend, role, start, run)[to] {
      HeldAlong(backend, role, start, run, at + 1, to, row);
    }
  }

  lemma AnsweredRow(backend: Backend, role: Role, queue: seq<Row>, e: Event) returns (row: Row)
    requires Sound(backend, role, queue) && HasText(e) && e.action.Enqueue? && DurableId(e.action.frame.deliveryId)
    requires EnqueueReply(backend, role, true, queue, e.action.frame, e.now) in {Stored, Duplicate}
    ensures row in Next(backend, role, queue, e)
    ensures IdOf(row) == e.action.frame.deliveryId && Complete(row) && row.Item? && e.now < row.expiresAt.value
    ensures EnqueueReply(backend, role, true, queue, e.action.frame, e.now).Stored? ==> row == RowFor(e.action.frame, e.now)
  {
    hide MustRefuse, Utf8Length, Retain, DurableId, UniqueIds;
    var f := e.action.frame;
    var live := Filter(queue, LiveIn(backend, e.now));
    if EnqueueReply(backend, role, true, queue, f, e.now).Stored? {
      row := RowFor(f, e.now);
      RetainKeepsPromises(live, row, HOLD_LIMIT, QueueLimit(backend, role, f.deliveryId));
    } else {
      row :| row in live && IdOf(row) == f.deliveryId;
    }
  }

  // ---- the two stores ----

  /** The queue columns of one Node room; `known` says that its row exists. */
  class NodeMailbox {
    var known: bool
    var machine: seq<Row>
    var phone: seq<Row>

    function At(role: Role): seq<Row>
      reads this
    {
      if role.Machine? then machine else phone
    }

    ghost predicate Valid()
      reads this
    {
      && Sound(Node, Machine, machine) && Sound(Node, Phone, phone)
      && (!known ==> machine == phone == [])
    }

    constructor (known: bool)
      ensures Valid() && this.known == known && machine == phone == []
    {
      this.known, machine, phone := known, [], [];
    }

    method WriteQueue(role: Role, queue: seq<Row>)
      requires Valid() && known && Sound(Node, role, queue)
      modifies this`machine, this`phone
      ensures Valid() && At(role) == queue
      ensures forall other :: other != role ==> At(other) == old(At(other))
    {
      hide Sound;
      if role.Machine? {
        machine := queue;
      } else {
        phone := queue;
      }
    }

    /** `queue`: a read that also forgets what has expired. */
    method Queue(role: Role, now: int) returns (live: seq<Row>)
      requires Valid()
      modifies this`machine, this`phone
      ensures Valid()
      ensures live == At(role) == Filter(old(At(role)), LiveIn(Node, now))
      ensures forall row :: row in live <==> row in old(At(role)) && row.Item? && row.expiresAt.Some? && now < row.expiresAt.value
      ensures forall other :: other != role ==> At(other) == old(At(other))
    {
      hide Sound;
      if !known {
        return [];
      }
      FilterSound(Node, role, At(role), LiveIn(Node, now));
      live := Filter(At(role), LiveIn(Node, now));
      if |live| != |At(role)| {
        WriteQueue(role, live);
      } else {
        SameLength(At(role), LiveIn(Node, now));
      }
    }

    method Enqueue(role: Role, f: Frame, now: int) returns (reply: Reply)
      requires Valid() && f.raw != []
      modifies this`machine, this`phone
      ensures Valid()
      ensures reply == EnqueueReply(Node, role, known, old(At(role)), f, now)
      ensures At(role) == EnqueueQueue(Node, role, known, old(At(role)), f, now)
      ensures forall other :: other != role ==> At(other) == old(At(other))
    {
      hide Sound, MustRefuse, Retain, DurableId, Utf8Length, GivesUp, LiveIn;
      var rawBytes := Utf8Length(f.raw);
      var limits := SubmissionLimits(role, f.deliveryId);
      if rawBytes > limits.frameBytes {
        return Oversize;
      }
      if f.expiresAt.Some? && f.expiresAt.value <= now {
        return Expired;
      }
      if !known {
        return NoRoom;
      }
      EnqueueSound(Node, role, At(role), f, now);
      var queue := Queue(role, now);
      if exists row :: row in queue && IdOf(row) == f.deliveryId {
        return Duplicate;
      }
      var expiry := if f.expiresAt.Some? then f.expiresAt.value else now + DEFAULT_QUEUE_TTL_MS;
      var stored, rows := RetainSubmission(queue, Item(f.raw, Some(rawBytes), f.deliveryId, Some(expiry)),
                                           HOLD_LIMIT, limits.queueBytes);
      if !stored {
        return Full;
      }
      WriteQueue(role, rows);
      return Stored;
    }

    method Acknowledge(role: Role, deliveryId: string, now: int)
      requires Valid()
      modifies this`machine, this`phone
      ensures Valid()
      ensures At(role) == AcknowledgeQueue(Node, old(At(role)), deliveryId, now)
      ensures forall row :: row in At(role) <==>
                && row in old(At(role)) && row.Item? && row.deliveryId != Some(deliveryId)
                && row.expiresAt.Some? && now < row.expiresAt.value
      ensures forall other :: other != role ==> At(other) == old(At(other))
    {
      hide Sound;
      var queue := Queue(role, now);
      FilterSound(Node, role, queue, NotFor(deliveryId));
      hide LiveIn, NotFor;
      var remaining := Filter(queue, NotFor(deliveryId));
      if |remaining| != |queue| {
        WriteQueue(role, remaining);
      } else {
        SameLength(queue, NotFor(deliveryId));
      }
    }

    /** One event of a run on the queue of a known room. */
    method Serve(role: Role, e: Event)
      requires Valid() && known && HasText(e)
      modifies this`machine, this`phone
      ensures Valid() && At(role) == Next(Node, role, old(At(role)), e)
      ensures forall other :: other != role ==> At(other) == old(At(other))
    {
      hide Sound, EnqueueQueue, AcknowledgeQueue, LiveIn;
      match e.action {
        case Enqueue(f) => var reply := Enqueue(role, f, e.now);
        case Acknowledge(deliveryId) => Acknowledge(role, deliveryId, e.now);
        case Deliver(_, _) => var live := Queue(role, e.now);
      }
    }
  }

  /** A filter that drops nothing changes nothing. */
  lemma {:induction false} SameLength(rows: seq<Row>, p: Row -> bool)
    requires |Filter(rows, p)| == |rows|
    ensures Filter(rows, p) == rows
  {
    if rows != [] {
      SameLength(rows[1..], p);
    }
  }

  /** The `q:` keys of a Durable Object; an empty queue has no key. */
  class WorkerMailbox {
    var storage: map<Role, seq<Row>>

    function At(role: Role): seq<Row>
      reads this
    {
      if role in storage then storage[role] else []
    }

    ghost predicate Valid()
      reads this
    {
      forall role :: Sound(Worker, role, At(role)) && (role in storage ==> storage[role] != [])
    }

    constructor ()
      ensures Valid() && storage == map[]
    {
      storage := map[];
    }

    method Put(role: Role, rows: seq<Row>)
      requires Valid() && Sound(Worker, role, rows)
      modifies this
      ensures Valid() && At(role) == rows
      ensures forall other :: other != role ==> At(other) == old(At(other))
    {
      hide Sound;
      if |rows| > 0 {
        storage := storage[role := rows];
      } else {
        storage := storage - {role};
      }
    }

    /** `queue`. */
    method Enqueue(role: Role, f: Frame, now: int) returns (reply: Reply)
      requires Valid() && f.raw != []
      modifies this
      ensures Valid()
      ensures reply == EnqueueReply(Worker, role, true, old(At(role)), f, now)
      ensures At(role) == EnqueueQueue(Worker, role, true, old(At(role)), f, now)
      ensures forall other :: other != role ==> At(other) == old(At(other))
    {
      hide Sound, MustRefuse, Retain, DurableId, Utf8Length, GivesUp;
      var rawBytes := Utf8Length(f.raw);
      if rawBytes > MAX_QUEUE_BYTES {
        return Oversize;
      }
      if f.expiresAt.Some? && f.expiresAt.value <= now {
        return Expired;
      }
      EnqueueSound(Worker, role, At(role), f, now);
      var queue := Filter(At(role), LiveIn(Worker, now));
      if f.deliveryId.Some? && f.deliveryId.value != "" && exists row :: row in queue && IdOf(row) == f.deliveryId {
        return Duplicate;
      }
      var expiry := if f.expiresAt.Some? then f.expiresAt.value else now + DEFAULT_QUEUE_TTL_MS;
      var stored, rows := RetainSubmission(queue, Item(f.raw, Some(rawBytes), f.deliveryId, Some(expiry)),
                                           HOLD_LIMIT, MAX_QUEUE_BYTES);
      if !stored {
        return Full;
      }
      Put(role, rows);
      return Stored;
    }

    method Acknowledge(role: Role, deliveryId: string)
      requires Valid()
      modifies this
      ensures Valid()
      ensures forall now :: At(role) == AcknowledgeQueue(Worker, old(At(role)), deliveryId, now)
      ensures forall row :: row in At(role) <==> row in old(At(role)) && !(row.Item? && row.deliveryId == Some(deliveryId))
      ensures forall other :: other != role ==> At(other) == old(At(other))
    {
      hide Sound;
      FilterSound(Worker, role, At(role), NotFor(deliveryId));
      var remaining := Filter(At(role), NotFor(deliveryId));
      Put(role, remaining);
    }

    /** `flushTo`: sends what matches, in order, and keeps whatever still needs an acknowledgement. */
    method FlushTo(role: Role, matching: set<Text>, sendable: nat, now: int) returns (sent: seq<Text>)
      requires Valid()
      modifies this
      ensures Valid()
      ensures At(role) == FlushQueue(old(At(role)), matching, sendable, now)
      ensures forall other :: other != role ==> At(other) == old(At(other))
      ensures sent == FirstOf(Texts(Filter(old(At(role)), Sendable(matching, now))), sendable)
      ensures exists n :: FlushedTo(At(role), sent, old(At(role)), matching, sendable, now, n)
    {
      hide Sound, Flush, SendUntilRefused, Reliable, FlushedTo, Sendable, Texts, FirstOf, Pending, Filter, Complete;
      ghost var queue := At(role);
      assert forall row :: row in queue ==> Complete(row) by {
        SoundComplete(Worker, role, queue);
      }
      var e := Event(now, Deliver(matching, sendable));
      StepSound(Worker, role, At(role), e);
      var pending := Filter(At(role), Pending(now));
      if |pending| == 0 {
        NothingToFlush(matching, sendable);
        Put(role, []);
        sent := [];
      } else if forall row :: row in pending ==> Reliable(row) {
        sent := SendAll(pending, matching, sendable);
      } else {
        var remaining;
        remaining, sent := FlushLoop(pending, matching, sendable);
        Put(role, remaining);
      }
      DeliveredExactly(queue, matching, sendable, now, sent);
    }

    /** One event of a run on a queue. */
    method Serve(role: Role, e: Event) returns (sent: seq<Text>)
      requires Valid() && HasText(e)
      modifies this
      ensures Valid() && At(role) == Next(Worker, role, old(At(role)), e)
      ensures forall other :: other != role ==> At(other) == old(At(other))
    {
      hide Sound, EnqueueQueue, AcknowledgeQueue, FlushQueue, FlushedTo, Sendable;
      sent := [];
      match e.action {
        case Enqueue(f) => var reply := Enqueue(role, f, e.now);
        case Acknowledge(deliveryId) => Acknowledge(role, deliveryId);
        case Deliver(matching, sendable) => sent := FlushTo(role, matching, sendable, e.now);
      }
    }
  }

  lemma SoundComplete(backend: Backend, role: Role, queue: seq<Row>)
    requires Sound(backend, role, queue)
    ensures forall row :: row in queue ==> Complete(row)
  {
  }

  /**
   * What one flush did: the queue of reliable rows is left alone; otherwise, of the unexpired rows,
   * the first `n` were passed and keep what stays, and the socket refused the next one, if any.
   */
  ghost predicate FlushedTo(after: seq<Row>, sent: seq<Text>, queue: seq<Row>, matching: set<Text>, sendable: nat, now: int, n: nat) {
    var pending := Filter(queue, Pending(now));
    && n <= |pending| && sent == Texts(Filter(pending[..n], Goes(matching))) && |sent| <= sendable
    && (n < |pending| ==> |sent| == sendable && Goes(matching)(pending[n]))
    && after == if pending != [] && forall row :: row in pending ==> row.Item? && row.deliveryId.Some? && row.deliveryId.value != ""
                then queue
                else Filter(pending[..n], Stays(matching)) + pending[n..]
  }

  lemma NothingToFlush(matching: set<Text>, sendable: nat)
    ensures Flush([], matching, sendable) == ([], []) && SendUntilRefused([], matching, sendable) == []
  {
  }

  /** The matching rows, cut off where the socket throws. */
  function SendUntilRefused(pending: seq<Row>, matching: set<Text>, sendable: nat): (sent: seq<Text>)
    ensures |sent| <= sendable
  {
    if pending == [] then []
    else if pending[0].raw !in matching then SendUntilRefused(pending[1..], matching, sendable)
    else if sendable == 0 then []
    else [pending[0].raw] + SendUntilRefused(pending[1..], matching, sendable - 1)
  }

  lemma SendOne(pending: seq<Row>, n: nat, matching: set<Text>, left: nat)
    requires n < |pending|
    ensures SendUntilRefused(pending[n..], matching, left) ==
            if pending[n].raw !in matching then SendUntilRefused(pending[n + 1..], matching, left)
            else if left == 0 then []
            else [pending[n].raw] + SendUntilRefused(pending[n + 1..], matching, left - 1)
  {
    var rest := pending[n..];
    assert rest[1..] == pending[n + 1..] && rest[0] == pending[n];
    if pending[n].raw in matching && left == 0 {
      assert SendUntilRefused(rest, matching, left) == [];
    }
  }

  /** The loop that only sends. */
  method SendAll(pending: seq<Row>, matching: set<Text>, sendable: nat) returns (sent: seq<Text>)
    ensures sent == SendUntilRefused(pending, matching, sendable)
    ensures (forall row :: row in pending ==> row.raw != [])
            ==> sent == FirstOf(Texts(Filter(pending, IsFor(matching))), sendable)
  {
    hide SendUntilRefused, FirstOf, Texts, Filter;
    if forall row :: row in pending ==> row.raw != [] {
      SentExactly(pending, matching, sendable);
      FilterCongruent(pending, Goes(matching), IsFor(matching));
    }
    sent := [];
    var left: nat := sendable;
    assert pending[0..] == pending;
    for n := 0 to |pending|
      invariant SendUntilRefused(pending, matching, sendable) == sent + SendUntilRefused(pending[n..], matching, left)
    {
      SendOne(pending, n, matching, left);
      if pending[n].raw in matching {
        if left == 0 {
          assert sent + [] == sent;
          return;
        }
        left := left - 1;
        sent := sent + [pending[n].raw];
      }
    }
    assert pending[|pending|..] == [] && sent + [] == sent;
    NothingToFlush(matching, left);
  }

  lemma TextsConcat(a: seq<Row>, b: seq<Row>)
    ensures Texts(a + b) == Texts(a) + Texts(b)
  {
  }

  /** The loop passed `n` rows, keeping and sending these, and was refused the next one, if any. */
  ghost predicate StopsAt(pending: seq<Row>, matching: set<Text>, sendable: nat, kept: seq<Row>, sent: seq<Text>, n: nat) {
    && n <= |pending| && |sent| <= sendable
    && kept == Filter(pending[..n], Stays(matching)) + pending[n..]
    && sent == Texts(Filter(pending[..n], Goes(matching)))
    && (n < |pending| ==> |sent| == sendable && Goes(matching)(pending[n]))
  }

  lemma RefusedAtOnce(pending: seq<Row>, matching: set<Text>, sendable: nat)
    requires pending == [] || (Goes(matching)(pending[0]) && sendable == 0)
    ensures StopsAt(pending, matching, sendable, pending, [], 0)
  {
    hide Goes, Stays;
  }

  lemma PassedOne(row: Row, rest: seq<Row>, matching: set<Text>, left: nat, kept: seq<Row>, sent: seq<Text>, m: nat)
    requires StopsAt(rest, matching, left, kept, sent, m)
    ensures StopsAt([row] + rest, matching, if Goes(matching)(row) then left + 1 else left,
                    (if Stays(matching)(row) then [row] else []) + kept,
                    (if Goes(matching)(row) then [row.raw] else []) + sent, m + 1)
  {
    hide Texts, Filter, Goes, Stays;
    var pending := [row] + rest;
    assert pending[..m + 1] == [row] + rest[..m] && pending[m + 1..] == rest[m..];
    FilterCons(row, rest[..m], Stays(matching));
    FilterCons(row, rest[..m], Goes(matching));
    TextsConcat([row], Filter(rest[..m], Goes(matching)));
    OneText(row);
    assert forall x: seq<Row> :: [] + x == x;
    assert [] + Texts(Filter(rest[..m], Goes(matching))) == Texts(Filter(rest[..m], Goes(matching)));
  }

  /** Where the rewriting loop stops, and what it has done until there. */
  lemma {:induction false} FlushStops(pending: seq<Row>, matching: set<Text>, sendable: nat) returns (n: nat)
    ensures StopsAt(pending, matching, sendable, Flush(pending, matching, sendable).0, Flush(pending, matching, sendable).1, n)
  {
    hide StopsAt;
    if pending == [] || (Goes(matching)(pending[0]) && sendable == 0) {
      n := 0;
      RefusedAtOnce(pending, matching, sendable);
    } else {
      var row, rest := pending[0], pending[1..];
      var left := if Goes(matching)(row) then sendable - 1 else sendable;
      var m := FlushStops(rest, matching, left);
      var (kept, sent) := Flush(rest, matching, left);
      PassedOne(row, rest, matching, left, kept, sent, m);
      assert pending == [row] + rest;
      assert [] + kept == kept && [] + sent == sent;
      n := m + 1;
    }
  }

  lemma OneText(row: Row)
    ensures Texts([row]) == [row.raw]
  {
  }

  lemma {:induction false} SameSent(pending: seq<Row>, matching: set<Text>, sendable: nat)
    requires forall row :: row in pending ==> row.raw != []
    ensures SendUntilRefused(pending, matching, sendable) == Flush(pending, matching, sendable).1
  {
    if pending != [] {
      var less := if pending[0].raw in matching && sendable > 0 then sendable - 1 else sendable;
      SameSent(pending[1..], matching, less);
    }
  }

  lemma CutIsFirst(pending: seq<Row>, matching: set<Text>, sendable: nat, kept: seq<Row>, sent: seq<Text>, n: nat)
    requires StopsAt(pending, matching, sendable, kept, sent, n)
    ensures sent == FirstOf(Texts(Filter(pending, Goes(matching))), sendable)
  {
    hide Texts, Filter, Goes, Stays;
    assert pending == pending[..n] + pending[n..];
    FilterConcat(pending[..n], pending[n..], Goes(matching));
    var rest := Filter(pending[n..], Goes(matching));
    TextsConcat(Filter(pending[..n], Goes(matching)), rest);
    if n == |pending| {
      assert rest == [];
    }
  }

  /** The rewriting loop sends the matching texts in order, up to what the socket takes. */
  lemma FlushedExactly(pending: seq<Row>, matching: set<Text>, sendable: nat)
    ensures Flush(pending, matching, sendable).1 == FirstOf(Texts(Filter(pending, Goes(matching))), sendable)
  {
    var n := FlushStops(pending, matching, sendable);
    CutIsFirst(pending, matching, sendable, Flush(pending, matching, sendable).0, Flush(pending, matching, sendable).1, n);
  }

  /** And so does the loop that only sends: a row for another recipient never holds up those behind it. */
  lemma SentExactly(pending: seq<Row>, matching: set<Text>, sendable: nat)
    requires forall row :: row in pending ==> row.raw != []
    ensures SendUntilRefused(pending, matching, sendable) == FirstOf(Texts(Filter(pending, Goes(matching))), sendable)
  {
    SameSent(pending, matching, sendable);
    FlushedExactly(pending, matching, sendable);
  }

  lemma PendingMeans(queue: seq<Row>, matching: set<Text>, now: int)
    ensures Filter(Filter(queue, Pending(now)), Goes(matching)) == Filter(queue, Sendable(matching, now))
  {
    FilterTwice(queue, Pending(now), Goes(matching), Sendable(matching, now));
  }

  /** What both loops send is what the rewriting loop would send. */
  lemma SentByEither(pending: seq<Row>, matching: set<Text>, sendable: nat)
    requires forall row :: row in pending ==> Complete(row)
    requires forall row :: row in pending ==> Reliable(row)
    ensures SendUntilRefused(pending, matching, sendable) == Flush(pending, matching, sendable).1
  {
    forall row | row in pending ensures row.raw != [] {
      assert Complete(row) && Reliable(row);
    }
    SameSent(pending, matching, sendable);
  }

  lemma FlushedSomewhere(queue: seq<Row>, matching: set<Text>, sendable: nat, now: int, n: nat)
    requires var pending := Filter(queue, Pending(now));
             StopsAt(pending, matching, sendable, Flush(pending, matching, sendable).0, Flush(pending, matching, sendable).1, n)
    ensures FlushedTo(FlushQueue(queue, matching, sendable, now), Flush(Filter(queue, Pending(now)), matching, sendable).1,
                      queue, matching, sendable, now, n)
  {
    hide Flush, Goes, Stays, Texts, Filter, Pending;
  }

  /** One delivery, said of the queue before it and after it. */
  lemma DeliveredExactly(queue: seq<Row>, matching: set<Text>, sendable: nat, now: int, sent: seq<Text>)
    requires forall row :: row in queue ==> Complete(row)
    requires var pending := Filter(queue, Pending(now));
             sent == if forall row :: row in pending ==> Reliable(row) then SendUntilRefused(pending, matching, sendable)
                     else Flush(pending, matching, sendable).1
    ensures exists n :: FlushedTo(FlushQueue(queue, matching, sendable, now), sent, queue, matching, sendable, now, n)
    ensures sent == FirstOf(Texts(Filter(queue, Sendable(matching, now))), sendable)
  {
    var pending := Filter(queue, Pending(now));
    assert forall row :: row in pending ==> row in queue;
    PendingMeans(queue, matching, now);
    hide Complete, Flush, SendUntilRefused, Goes, Stays, Texts, FirstOf, Filter, Reliable, Sendable, Pending, StopsAt,
         FlushedTo, FlushQueue;
    if forall row :: row in pending ==> Reliable(row) {
      SentByEither(pending, matching, sendable);
    }
    var n := FlushStops(pending, matching, sendable);
    CutIsFirst(pending, matching, sendable, Flush(pending, matching, sendable).0, sent, n);
    FlushedSomewhere(queue, matching, sendable, now, n);
  }

  lemma FlushOne(pending: seq<Row>, n: nat, matching: set<Text>, left: nat)
    requires n < |pending|
    ensures var row, now := pending[n], Flush(pending[n..], matching, left);
            if row.raw == [] then now == Flush(pending[n + 1..], matching, left)
            else if row.raw !in matching then
              && now.0 == [row] + Flush(pending[n + 1..], matching, left).0
              && now.1 == Flush(pending[n + 1..], matching, left).1
            else if left == 0 then now == (pending[n..], [])
            else
              && now.0 == (if Reliable(row) then [row] else []) + Flush(pending[n + 1..], matching, left - 1).0
              && now.1 == [row.raw] + Flush(pending[n + 1..], matching, left - 1).1
  {
  }

  /** The loop that rebuilds the stored queue as it sends. */
  method FlushLoop(pending: seq<Row>, matching: set<Text>, sendable: nat) returns (remaining: seq<Row>, sent: seq<Text>)
    ensures remaining == Flush(pending, matching, sendable).0 && sent == Flush(pending, matching, sendable).1
  {
    hide Reliable, Flush;
    remaining, sent := [], [];
    var left: nat := sendable;
    assert pending[0..] == pending;
    for n := 0 to |pending|
      invariant Flush(pending, matching, sendable).0 == remaining + Flush(pending[n..], matching, left).0
      invariant Flush(pending, matching, sendable).1 == sent + Flush(pending[n..], matching, left).1
    {
      FlushOne(pending, n, matching, left);
      var item := pending[n];
      if item.raw == [] {
        continue;
      }
      if item.raw !in matching {
        remaining := remaining + [item];
        continue;
      }
      if left == 0 {
        remaining := remaining + pending[n..];
        return;
      }
      left := left - 1;
      sent := sent + [item.raw];
      if Reliable(item) {
        remaining := remaining + [item];
      }
    }
    NothingToFlush(matching, left);
  }
}
