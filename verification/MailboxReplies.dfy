/** What a sender may rely on when it submits a frame to a mailbox, with every limit written out. */
module MailboxReplies {
  import opened Lists
  import opened Text
  import opened Wire
  import opened MailboxPolicy
  import opened Mailbox

  /** The id of a message, an approval or an attachment that a person sent: a prefix and at least one more character. */
  predicate Submission(deliveryId: Option<string>) {
    && deliveryId.Some?
    && var id := deliveryId.value;
       || (|id| > 13 && id[..13] == "user-message-")
       || (|id| > 18 && id[..18] == "approval-decision-")
       || (|id| > 11 && id[..11] == "attachment-")
  }

  lemma DurableMeans(deliveryId: Option<string>)
    ensures DurableId(deliveryId) <==> Submission(deliveryId)
  {
  }

  predicate Promised(row: Row) { row.Item? && Submission(row.deliveryId) }

  lemma PromisedMeans(row: Row)
    ensures Promised(row) <==> DurableId(IdOf(row))
  {
    DurableMeans(IdOf(row));
  }

  function IsPromised(): Row -> bool { (row: Row) => Promised(row) }

  /** The rows a store still finds: a bare string is found in a Durable Object only. */
  function Unexpired(backend: Backend, now: int): Row -> bool {
    (row: Row) => if row.Item? && row.expiresAt.Some? then now < row.expiresAt.value else backend == Worker
  }

  /** The size of the texts in UTF-8. */
  function TextBytes(rows: seq<Row>): nat { Sum(rows, (row: Row) => Utf8Length(row.raw)) }

  function FrameBytes(backend: Backend, role: Role, f: Frame): nat {
    if backend == Node && role == Machine && Submission(f.deliveryId) then 22010000 else 1800000
  }

  function QueueBytes(backend: Backend, role: Role, f: Frame): nat {
    if backend == Node && role == Machine && Submission(f.deliveryId) then 32000000 else 1800000
  }

  /** An unexpired row with the frame's id is there already; a Durable Object asks only for a frame with an id. */
  predicate Repeated(backend: Backend, live: seq<Row>, f: Frame) {
    && (backend == Worker ==> f.deliveryId.Some? && f.deliveryId.value != "")
    && exists row :: row in live && f.deliveryId == (if row.Item? then row.deliveryId else None)
  }

  lemma {:induction false} TrueBytes(rows: seq<Row>)
    requires forall row :: row in rows ==> Complete(row)
    ensures Bytes(rows) == TextBytes(rows)
  {
    if rows != [] {
      assert Complete(rows[0]);
      hide Utf8Length;
      TrueBytes(rows[1..]);
    }
  }

  /** A sound queue holds at most 100 rows, whose texts fit 32,000,000 bytes for a machine in Node, else 1,800,000. */
  lemma SoundMeans(backend: Backend, role: Role, queue: seq<Row>)
    requires Sound(backend, role, queue)
    ensures |queue| <= 100 && TextBytes(queue) <= if backend == Node && role == Machine then 32000000 else 1800000
    ensures forall i, j :: 0 <= i < j < |queue| && queue[i].Item? && queue[j].Item? && queue[i].deliveryId == queue[j].deliveryId
                           ==> queue[i].deliveryId in {None, Some("")}
  {
    TrueBytes(queue);
    hide Complete, Bytes, Utf8Length;
  }

  /**
   * The answer to a frame, case by case: it is full exactly when the frame and the promised rows
   * alone are more than 100 or larger than the queue may be.
   */
  lemma AnsweredExactly(backend: Backend, role: Role, room: bool, queue: seq<Row>, f: Frame, now: int)
    requires Sound(backend, role, queue)
    ensures var live := Filter(queue, Unexpired(backend, now));
            var promised := Filter(live, IsPromised());
            EnqueueReply(backend, role, room, queue, f, now) ==
              if Utf8Length(f.raw) > FrameBytes(backend, role, f) then Oversize
              else if f.expiresAt.Some? && f.expiresAt.value <= now then Expired
              else if backend == Node && !room then NoRoom
              else if Repeated(backend, live, f) then Duplicate
              else if |promised| + 1 > 100 || TextBytes(promised) + Utf8Length(f.raw) > QueueBytes(backend, role, f) then Full
              else Stored
  {
    DurableMeans(f.deliveryId);
    LiveMeans(backend, queue, now);
    var live := Filter(queue, Unexpired(backend, now));
    PromisedRows(live);
    var promised := Filter(live, IsPromised());
    TrueBytes(promised);
    BytesAppend(promised, RowFor(f, now));
    hide Complete, Bytes, Utf8Length, DurableId, Submission, Filter, Unexpired, LiveIn;
  }

  lemma LiveMeans(backend: Backend, queue: seq<Row>, now: int)
    ensures Filter(queue, LiveIn(backend, now)) == Filter(queue, Unexpired(backend, now))
  {
    FilterCongruent(queue, LiveIn(backend, now), Unexpired(backend, now));
  }

  lemma PromisedRows(rows: seq<Row>)
    ensures Filter(rows, Durable()) == Filter(rows, IsPromised())
  {
    forall row | row in rows ensures Durable()(row) == IsPromised()(row) {
      PromisedMeans(row);
    }
    FilterCongruent(rows, Durable(), IsPromised());
  }

  /** What the sender is told: only a frame too large that is no submission closes its socket. */
  lemma ToldExactly(reply: Reply, deliveryId: Option<string>)
    ensures QueueOutcome(reply, deliveryId) ==
              if reply == Stored || reply == Duplicate then Forward
              else if reply == Oversize && !Submission(deliveryId) then Close("oversize")
              else Drop(if reply == Oversize then "oversize" else if reply == Full then "full"
                        else if reply == NoRoom then "no-room" else "expired")
  {
    DurableMeans(deliveryId);
    hide Submission, DurableId;
  }

  // ---- what a full mailbox gives up ----

  /** The queue when its first `c` rows have lost those not promised. */
  function CutTo(live: seq<Row>, c: nat): seq<Row>
    requires c <= |live|
  {
    Filter(live[..c], IsPromised()) + live[c..]
  }

  /** Room for the frame: at most 100 rows with it, and no more bytes than the queue may have. */
  predicate RoomIn(backend: Backend, role: Role, rows: seq<Row>, f: Frame) {
    |rows| + 1 <= 100 && TextBytes(rows) + Utf8Length(f.raw) <= QueueBytes(backend, role, f)
  }

  /** How many of the first `c` rows are not promised. */
  function GivenUp(rows: seq<Row>, c: nat): nat
    requires c <= |rows|
  {
    |Filter(rows[..c], Transient())|
  }

  lemma GivenUpCons(row: Row, rows: seq<Row>, d: nat)
    requires d <= |rows|
    ensures GivenUp([row] + rows, d + 1) == (if Promised(row) then 0 else 1) + GivenUp(rows, d)
    ensures CutTo([row] + rows, d + 1) == (if Promised(row) then [row] else []) + CutTo(rows, d)
  {
    hide Filter, Submission, DurableId;
    PromisedMeans(row);
    assert ([row] + rows)[..d + 1] == [row] + rows[..d] && ([row] + rows)[d + 1..] == rows[d..];
    FilterCons(row, rows[..d], Transient());
    FilterCons(row, rows[..d], IsPromised());
    assert forall x: seq<Row> :: [] + x == x;
  }

  lemma GivenUpAtMost(rows: seq<Row>, c: nat)
    requires c <= |rows|
    ensures GivenUp(rows, c) <= |Filter(rows, Transient())|
  {
    assert rows == rows[..c] + rows[c..];
    FilterConcat(rows[..c], rows[c..], Transient());
  }

  lemma GivenUpMore(rows: seq<Row>, b: nat, c: nat)
    requires b < c <= |rows| && !Promised(rows[c - 1])
    ensures GivenUp(rows, b) < GivenUp(rows, c)
  {
    PromisedMeans(rows[c - 1]);
    hide Submission, DurableId;
    assert rows[..c] == rows[..b] + rows[b..c];
    FilterConcat(rows[..b], rows[b..c], Transient());
    assert rows[c - 1] == rows[b..c][c - 1 - b] && rows[c - 1] in Filter(rows[b..c], Transient());
  }

  /** Giving up the oldest rows not promised is cutting the queue at some row. */
  lemma {:induction false} CutIsWithout(rows: seq<Row>, c: nat)
    requires c <= |rows| && GivenUp(rows, c) <= |Filter(rows, Transient())|
    ensures WithoutTransient(rows, GivenUp(rows, c)) == CutTo(rows, c)
  {
    hide Submission, DurableId, GivenUp, CutTo, Promised, IdOf, Filter;
    if c == 0 {
      CutNone(rows);
    } else {
      var row, rest := rows[0], rows[1..];
      assert rows == [row] + rest;
      PromisedMeans(row);
      GivenUpCons(row, rest, c - 1);
      GivenUpAtMost(rest, c - 1);
      CutIsWithout(rest, c - 1);
      assert [] + CutTo(rest, c - 1) == CutTo(rest, c - 1);
      if GivenUp(rows, c) == 0 {
        WithoutNone(rest);
      }
    }
  }

  lemma CutNone(rows: seq<Row>)
    ensures GivenUp(rows, 0) == 0 && CutTo(rows, 0) == rows && WithoutTransient(rows, 0) == rows
  {
  }

  /** Where the queue is cut when `k` rows are given up. */
  lemma {:induction false} CutPlace(rows: seq<Row>, k: nat) returns (c: nat)
    requires k <= |Filter(rows, Transient())|
    ensures c <= |rows| && GivenUp(rows, c) == k && (c > 0 ==> !Promised(rows[c - 1]))
  {
    hide Submission, DurableId, CutTo;
    if k == 0 {
      c := 0;
    } else {
      var row, rest := rows[0], rows[1..];
      assert rows == [row] + rest;
      PromisedMeans(row);
      FilterCons(row, rest, Transient());
      var d := CutPlace(rest, if Promised(row) then k else k - 1);
      GivenUpCons(row, rest, d);
      c := d + 1;
      if d > 0 {
        assert rows[c - 1] == rest[d - 1];
      }
    }
  }

  lemma RoomMeans(backend: Backend, role: Role, live: seq<Row>, c: nat, f: Frame, now: int)
    requires c <= |live| && forall row :: row in live ==> Complete(row)
    ensures RoomIn(backend, role, CutTo(live, c), f) <==>
            !Exceeds(CutTo(live, c) + [RowFor(f, now)], 100, QueueLimit(backend, role, f.deliveryId))
  {
    DurableMeans(f.deliveryId);
    var rows := CutTo(live, c);
    forall row | row in rows ensures Complete(row) {
      assert row in live[..c] || row in live[c..];
    }
    TrueBytes(rows);
    BytesAppend(rows, RowFor(f, now));
    hide Complete, Bytes, Utf8Length, DurableId, Submission, CutTo, TextBytes;
  }

  /**
   * A stored frame stands last in the queue, with its own text, id and expiry (15 minutes unless it
   * says another). Before it stand the unexpired rows, cut at the first place that makes room:
   * only rows not promised go, the oldest first, and no more than needed.
   */
  lemma StoredExactly(backend: Backend, role: Role, room: bool, queue: seq<Row>, f: Frame, now: int) returns (c: nat)
    requires Sound(backend, role, queue) && EnqueueReply(backend, role, room, queue, f, now) == Stored
    ensures var live := Filter(queue, Unexpired(backend, now));
            && c <= |live|
            && EnqueueQueue(backend, role, room, queue, f, now) ==
                 CutTo(live, c) + [Item(f.raw, Some(Utf8Length(f.raw)), f.deliveryId,
                                        Some(if f.expiresAt.Some? then f.expiresAt.value else now + 900000))]
            && RoomIn(backend, role, CutTo(live, c), f)
            && forall b :: 0 <= b < c ==> !RoomIn(backend, role, CutTo(live, b), f)
  {
    var live, limit := Filter(queue, Unexpired(backend, now)), QueueLimit(backend, role, f.deliveryId);
    LiveMeans(backend, queue, now);
    SoundComplete(backend, role, queue);
    assert forall row :: row in live ==> row in queue;
    var row := RowFor(f, now);
    hide Complete, Bytes, Utf8Length, DurableId, Submission, CutTo, LiveIn, Unexpired, RoomIn, Exceeds, Sound, Filter, GivenUp,
         WithoutTransient, Eviction;
    var n := Eviction(live, row, HOLD_LIMIT, limit, 0);
    EvictionIsLeast(live, row, HOLD_LIMIT, limit, 0);
    c := CutPlace(live, n);
    CutIsWithout(live, c);
    RoomMeans(backend, role, live, c, f, now);
    forall b | 0 <= b < c ensures !RoomIn(backend, role, CutTo(live, b), f) {
      GivenUpAtMost(live, b);
      GivenUpMore(live, b, c);
      CutIsWithout(live, b);
      RoomMeans(backend, role, live, b, f, now);
    }
  }

  /** A frame that is not stored changes nothing, but Node forgets expired rows once it has looked at the queue. */
  lemma OthersLeaveQueue(backend: Backend, role: Role, room: bool, queue: seq<Row>, f: Frame, now: int)
    requires EnqueueReply(backend, role, room, queue, f, now) != Stored
    ensures EnqueueQueue(backend, role, room, queue, f, now) ==
              if backend == Node && EnqueueReply(backend, role, room, queue, f, now) in {Duplicate, Full}
              then Filter(queue, Unexpired(Node, now)) else queue
  {
    LiveMeans(backend, queue, now);
    hide Filter, LiveIn, Unexpired, Utf8Length;
  }
}
