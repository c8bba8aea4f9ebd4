/** Which stored frames a full mailbox may give up for a new one. */
module MailboxPolicy {
  import opened Lists
  import opened Text
  import opened Wire

  const HOLD_LIMIT := 100

  datatype Role = Machine | Phone
  datatype Backend = Node | Worker
  datatype Limits = Limits(frameBytes: nat, queueBytes: nat)

  /** A mailbox row; the oldest rows are bare strings. */
  datatype Row =
    | Legacy(raw: Text)
    | Item(raw: Text, rawBytes: Option<nat>, deliveryId: Option<string>, expiresAt: Option<int>)

  function IdOf(row: Row): Option<string> { if row.Item? then row.deliveryId else None }

  /** An explicit client submission. */
  predicate DurableId(deliveryId: Option<string>) {
    && deliveryId.Some?
    && (HasPrefix(deliveryId.value, "user-message-") || HasPrefix(deliveryId.value, "approval-decision-")
        || HasPrefix(deliveryId.value, "attachment-"))
  }

  function SubmissionLimits(role: Role, deliveryId: Option<string>): Limits {
    if role.Machine? && DurableId(deliveryId) then Limits(22010000, 32000000) else Limits(1800000, 1800000)
  }

  function RowBytes(row: Row): nat {
    if row.Item? && row.rawBytes.Some? then row.rawBytes.value else Utf8Length(row.raw)
  }

  function Durable(): Row -> bool { (row: Row) => DurableId(IdOf(row)) }
  function Transient(): Row -> bool { (row: Row) => !DurableId(IdOf(row)) }

  function Bytes(rows: seq<Row>): nat { Sum(rows, RowBytes) }

  predicate Exceeds(rows: seq<Row>, maxCount: nat, maxBytes: nat) { |rows| > maxCount || Bytes(rows) > maxBytes }

  /** `findIndex` of the first row that may be removed. */
  function FirstTransient(rows: seq<Row>): (i: nat)
    ensures i <= |rows| && (forall j :: 0 <= j < i ==> Durable()(rows[j]))
    ensures i < |rows| ==> Transient()(rows[i])
  {
    if rows == [] then 0 else if DurableId(IdOf(rows[0])) then 1 + FirstTransient(rows[1..]) else 0
  }

  /** The rows without the first `k` transient ones. */
  function WithoutTransient(rows: seq<Row>, k: nat): seq<Row>
    requires k <= |Filter(rows, Transient())|
  {
    if k == 0 then rows
    else if DurableId(IdOf(rows[0])) then [rows[0]] + WithoutTransient(rows[1..], k)
    else WithoutTransient(rows[1..], k - 1)
  }

  /** What `retainSubmission` keeps when it gives up exactly `k` of the oldest transient rows. */
  ghost predicate GivesUp(queue: seq<Row>, incoming: Row, maxCount: nat, maxBytes: nat, k: nat, rows: seq<Row>) {
    && k <= |Filter(queue, Transient())|
    && rows == WithoutTransient(queue, k) + [incoming]
    && !Exceeds(rows, maxCount, maxBytes)
    && forall j :: 0 <= j < k ==> Exceeds(WithoutTransient(queue, j) + [incoming], maxCount, maxBytes)
  }

  /** The queue must be refused: what it has promised and the incoming row alone are too much. */
  predicate MustRefuse(queue: seq<Row>, incoming: Row, maxCount: nat, maxBytes: nat) {
    Exceeds(Filter(queue, Durable()) + [incoming], maxCount, maxBytes)
  }

  // ---- facts about removing transient rows ----

  lemma {:induction false} RemoveFirst(rows: seq<Row>)
    requires FirstTransient(rows) < |rows|
    ensures Filter(rows, Transient()) != []
    ensures var i := FirstTransient(rows); WithoutTransient(rows, 1) == rows[..i] + rows[i + 1..]
  {
    hide DurableId, IdOf;
    if DurableId(IdOf(rows[0])) {
      RemoveFirst(rows[1..]);
      SpliceTail(rows, FirstTransient(rows[1..]));
    } else {
      assert WithoutTransient(rows[1..], 0) == rows[1..];
      assert rows[..0] + rows[1..] == rows[1..];
    }
  }

  lemma SpliceTail(rows: seq<Row>, i: nat)
    requires i + 1 < |rows|
    ensures rows[..i + 1] + rows[i + 2..] == [rows[0]] + (rows[1..][..i] + rows[1..][i + 1..])
  {
  }

  lemma {:induction false} WithoutOneMore(rows: seq<Row>, k: nat)
    requires k < |Filter(rows, Transient())|
    ensures Filter(WithoutTransient(rows, k), Transient()) != []
    ensures WithoutTransient(rows, k + 1) == WithoutTransient(WithoutTransient(rows, k), 1)
  {
    hide DurableId, IdOf;
    if k == 0 {
      assert WithoutTransient(rows, 0) == rows;
    } else if DurableId(IdOf(rows[0])) {
      WithoutOneMore(rows[1..], k);
      ConsDurable(rows[0], WithoutTransient(rows[1..], k));
    } else {
      WithoutOneMore(rows[1..], k - 1);
    }
  }

  lemma ConsDurable(row: Row, rows: seq<Row>)
    requires DurableId(IdOf(row)) && Filter(rows, Transient()) != []
    ensures Filter([row] + rows, Transient()) == Filter(rows, Transient())
    ensures WithoutTransient([row] + rows, 1) == [row] + WithoutTransient(rows, 1)
  {
  }

  lemma {:induction false} DurableStay(rows: seq<Row>, k: nat)
    requires k <= |Filter(rows, Transient())|
    ensures Filter(WithoutTransient(rows, k), Durable()) == Filter(rows, Durable())
  {
    hide DurableId, IdOf;
    if k > 0 {
      if DurableId(IdOf(rows[0])) {
        DurableStay(rows[1..], k);
        assert ([rows[0]] + WithoutTransient(rows[1..], k))[1..] == WithoutTransient(rows[1..], k);
      } else {
        DurableStay(rows[1..], k - 1);
      }
    }
  }

  lemma {:induction false} LatestTransientStay(rows: seq<Row>, k: nat)
    requires k <= |Filter(rows, Transient())|
    ensures Filter(WithoutTransient(rows, k), Transient()) == Filter(rows, Transient())[k..]
  {
    hide DurableId, IdOf;
    if k > 0 {
      if DurableId(IdOf(rows[0])) {
        LatestTransientStay(rows[1..], k);
        assert ([rows[0]] + WithoutTransient(rows[1..], k))[1..] == WithoutTransient(rows[1..], k);
      } else {
        LatestTransientStay(rows[1..], k - 1);
      }
    }
  }

  /** Durable rows stay, in order; the transient rows that stay are the latest ones. */
  lemma WithoutTransientKeeps(rows: seq<Row>, k: nat)
    requires k <= |Filter(rows, Transient())|
    ensures Filter(WithoutTransient(rows, k), Durable()) == Filter(rows, Durable())
    ensures Filter(WithoutTransient(rows, k), Transient()) == Filter(rows, Transient())[k..]
    ensures forall row :: row in WithoutTransient(rows, k) ==> row in rows
  {
    hide DurableId, IdOf;
    DurableStay(rows, k);
    LatestTransientStay(rows, k);
    forall row | row in WithoutTransient(rows, k) ensures row in rows {
      assert row in Filter(rows, Durable()) || row in Filter(rows, Transient())[k..];
    }
  }

  lemma {:induction false} DurablePart(rows: seq<Row>)
    ensures WithoutTransient(rows, |Filter(rows, Transient())|) == Filter(rows, Durable())
  {
    hide DurableId, IdOf, RowBytes;
    if rows != [] {
      DurablePart(rows[1..]);
      if !DurableId(IdOf(rows[0])) {
        assert Filter(rows, Transient()) == [rows[0]] + Filter(rows[1..], Transient());
      } else if |Filter(rows, Transient())| == 0 {
        assert rows == [rows[0]] + rows[1..];
        assert WithoutTransient(rows[1..], 0) == rows[1..];
      }
    }
  }

  lemma WithoutNone(rows: seq<Row>)
    ensures WithoutTransient(rows, 0) == rows
  {
  }

  lemma BytesAppend(rows: seq<Row>, row: Row)
    ensures Bytes(rows + [row]) == Bytes(rows) + RowBytes(row)
  {
    SumConcat(rows, [row], RowBytes);
    assert [row][1..] == [];
  }

  lemma BytesWithout(rows: seq<Row>, i: nat)
    requires i < |rows|
    ensures Bytes(rows) == Bytes(rows[..i] + rows[i + 1..]) + RowBytes(rows[i])
  {
    hide DurableId, IdOf, RowBytes;
    SumConcat(rows[..i], rows[i + 1..], RowBytes);
    SumConcat(rows[..i], [rows[i]] + rows[i + 1..], RowBytes);
    assert rows == rows[..i] + ([rows[i]] + rows[i + 1..]);
    assert ([rows[i]] + rows[i + 1..])[1..] == rows[i + 1..];
  }

  /** A queue that keeps what it promised is never smaller than the promised part. */
  lemma KeptExceedsPromised(queue: seq<Row>, incoming: Row, maxCount: nat, maxBytes: nat, k: nat)
    requires k <= |Filter(queue, Transient())| && MustRefuse(queue, incoming, maxCount, maxBytes)
    ensures Exceeds(WithoutTransient(queue, k) + [incoming], maxCount, maxBytes)
  {
    hide DurableId, IdOf, RowBytes;
    var kept := WithoutTransient(queue, k);
    WithoutTransientKeeps(queue, k);
    SumSplit(kept, Durable(), Transient(), RowBytes);
    BytesAppend(kept, incoming);
    BytesAppend(Filter(queue, Durable()), incoming);
  }

  lemma TransientExists(rows: seq<Row>)
    ensures FirstTransient(rows) < |rows| <==> Filter(rows, Transient()) != []
  {
  }

  /** When every transient row of the queue has gone, the first removable row is the incoming one or none. */
  lemma NothingLeftToRemove(queue: seq<Row>, incoming: Row, k: nat)
    requires k <= |Filter(queue, Transient())|
    ensures var kept := WithoutTransient(queue, k);
            && (FirstTransient(kept + [incoming]) >= |kept| <==> k == |Filter(queue, Transient())|)
            && (FirstTransient(kept + [incoming]) < |kept| ==> FirstTransient(kept + [incoming]) == FirstTransient(kept))
  {
    hide DurableId, IdOf, RowBytes;
    var kept := WithoutTransient(queue, k);
    WithoutTransientKeeps(queue, k);
    FirstTransientAppend(kept, incoming);
    TransientExists(kept);
  }

  lemma {:induction false} FirstTransientAppend(rows: seq<Row>, row: Row)
    ensures var i := FirstTransient(rows);
            if i < |rows| then FirstTransient(rows + [row]) == i else FirstTransient(rows + [row]) >= |rows|
  {
    hide DurableId, IdOf, RowBytes;
    if rows != [] {
      assert (rows + [row])[1..] == rows[1..] + [row];
      FirstTransientAppend(rows[1..], row);
    }
  }

  // ---- the algorithm ----

  /**
   * `retainSubmission`. It refuses, with the queue untouched, if and only if the promised rows and
   * the incoming one exceed a bound; otherwise it gives up the fewest oldest transient rows.
   */
  method RetainSubmission(queue: seq<Row>, incoming: Row, maxCount: nat, maxBytes: nat)
    returns (stored: bool, rows: seq<Row>)
    ensures stored <==> !MustRefuse(queue, incoming, maxCount, maxBytes)
    ensures !stored ==> rows == queue
    ensures stored ==> exists k :: GivesUp(queue, incoming, maxCount, maxBytes, k, rows)
    ensures rows == Retain(queue, incoming, maxCount, maxBytes)
  {
    hide DurableId, IdOf, RowBytes, MustRefuse, Exceeds, GivesUp, Bytes, WithoutTransient, FirstTransient, Filter, Retain;
    rows := queue + [incoming];
    var bytes := Bytes(rows);
    ghost var k := 0;
    WithoutNone(queue);
    while |rows| > maxCount || bytes > maxBytes
      invariant k <= |Filter(queue, Transient())|
      invariant rows == WithoutTransient(queue, k) + [incoming] && bytes == Bytes(rows)
      invariant forall j :: 0 <= j < k ==> Exceeds(WithoutTransient(queue, j) + [incoming], maxCount, maxBytes)
      decreases |rows|
    {
      ExceedsBecause(rows, maxCount, maxBytes);
      var removable := FirstTransient(rows);
      RemovalStep(queue, incoming, k, rows);
      if removable >= |rows| - 1 {
        RefusesBecause(queue, incoming, maxCount, maxBytes);
        RetainIsExact(queue, incoming, maxCount, maxBytes, queue);
        return false, queue;
      }
      bytes := bytes - RowBytes(rows[removable]);
      rows := rows[..removable] + rows[removable + 1..];
      k := k + 1;
    }
    stored := true;
    StoresBecause(queue, incoming, maxCount, maxBytes, k, rows);
    RetainIsExact(queue, incoming, maxCount, maxBytes, rows);
  }

  /** One turn of the loop: either one more transient row goes, or only promised rows are left. */
  lemma RemovalStep(queue: seq<Row>, incoming: Row, k: nat, rows: seq<Row>)
    requires k <= |Filter(queue, Transient())| && rows == WithoutTransient(queue, k) + [incoming]
    ensures var i := FirstTransient(rows);
            if i >= |rows| - 1 then rows == Filter(queue, Durable()) + [incoming]
            else && k < |Filter(queue, Transient())|
                 && rows[..i] + rows[i + 1..] == WithoutTransient(queue, k + 1) + [incoming]
                 && Bytes(rows) == Bytes(rows[..i] + rows[i + 1..]) + RowBytes(rows[i])
  {
    hide DurableId, IdOf, RowBytes, WithoutTransient, FirstTransient, Filter, Bytes;
    var kept := WithoutTransient(queue, k);
    NothingLeftToRemove(queue, incoming, k);
    var i := FirstTransient(rows);
    if i >= |rows| - 1 {
      DurablePart(queue);
    } else {
      BytesWithout(rows, i);
      WithoutOneMore(queue, k);
      RemoveFirst(kept);
      assert rows[..i] + rows[i + 1..] == (kept[..i] + kept[i + 1..]) + [incoming];
    }
  }

  lemma ExceedsBecause(rows: seq<Row>, maxCount: nat, maxBytes: nat)
    requires |rows| > maxCount || Bytes(rows) > maxBytes
    ensures Exceeds(rows, maxCount, maxBytes)
  {
  }

  lemma RefusesBecause(queue: seq<Row>, incoming: Row, maxCount: nat, maxBytes: nat)
    requires Exceeds(Filter(queue, Durable()) + [incoming], maxCount, maxBytes)
    ensures MustRefuse(queue, incoming, maxCount, maxBytes)
  {
  }

  lemma StoresBecause(queue: seq<Row>, incoming: Row, maxCount: nat, maxBytes: nat, k: nat, rows: seq<Row>)
    requires k <= |Filter(queue, Transient())| && rows == WithoutTransient(queue, k) + [incoming]
    requires !(|rows| > maxCount || Bytes(rows) > maxBytes)
    requires forall j :: 0 <= j < k ==> Exceeds(WithoutTransient(queue, j) + [incoming], maxCount, maxBytes)
    ensures GivesUp(queue, incoming, maxCount, maxBytes, k, rows) && !MustRefuse(queue, incoming, maxCount, maxBytes)
  {
    hide DurableId, IdOf, RowBytes;
    if MustRefuse(queue, incoming, maxCount, maxBytes) {
      KeptExceedsPromised(queue, incoming, maxCount, maxBytes, k);
      assert false;
    }
  }

  // ---- the same as a function ----

  /** The number of transient rows given up, counting up from `k`. */
  function Eviction(queue: seq<Row>, incoming: Row, maxCount: nat, maxBytes: nat, k: nat): (n: nat)
    requires k <= |Filter(queue, Transient())| && !MustRefuse(queue, incoming, maxCount, maxBytes)
    ensures n <= |Filter(queue, Transient())|
    decreases |Filter(queue, Transient())| - k
  {
    if Exceeds(WithoutTransient(queue, k) + [incoming], maxCount, maxBytes) && k < |Filter(queue, Transient())|
    then Eviction(queue, incoming, maxCount, maxBytes, k + 1) else k
  }

  /** The queue after `retainSubmission`. */
  function Retain(queue: seq<Row>, incoming: Row, maxCount: nat, maxBytes: nat): seq<Row> {
    if MustRefuse(queue, incoming, maxCount, maxBytes) then queue
    else WithoutTransient(queue, Eviction(queue, incoming, maxCount, maxBytes, 0)) + [incoming]
  }

  lemma {:induction false} EvictionIsLeast(queue: seq<Row>, incoming: Row, maxCount: nat, maxBytes: nat, k: nat)
    requires k <= |Filter(queue, Transient())| && !MustRefuse(queue, incoming, maxCount, maxBytes)
    requires forall j :: 0 <= j < k ==> Exceeds(WithoutTransient(queue, j) + [incoming], maxCount, maxBytes)
    ensures var n := Eviction(queue, incoming, maxCount, maxBytes, k);
            GivesUp(queue, incoming, maxCount, maxBytes, n, WithoutTransient(queue, n) + [incoming])
    decreases |Filter(queue, Transient())| - k
  {
    hide DurableId, IdOf, RowBytes;
    hide Exceeds;
    if Exceeds(WithoutTransient(queue, k) + [incoming], maxCount, maxBytes) && k < |Filter(queue, Transient())| {
      EvictionIsLeast(queue, incoming, maxCount, maxBytes, k + 1);
    } else if k == |Filter(queue, Transient())| {
      DurablePart(queue);
    }
  }

  lemma GivesUpOnce(queue: seq<Row>, incoming: Row, maxCount: nat, maxBytes: nat, k: nat, a: seq<Row>, n: nat, b: seq<Row>)
    requires GivesUp(queue, incoming, maxCount, maxBytes, k, a) && GivesUp(queue, incoming, maxCount, maxBytes, n, b)
    ensures a == b
  {
  }

  /** The outcome is determined: whatever `RetainSubmission` answers, the rows are `Retain`'s. */
  lemma RetainIsExact(queue: seq<Row>, incoming: Row, maxCount: nat, maxBytes: nat, rows: seq<Row>)
    requires if MustRefuse(queue, incoming, maxCount, maxBytes) then rows == queue
             else exists k :: GivesUp(queue, incoming, maxCount, maxBytes, k, rows)
    ensures rows == Retain(queue, incoming, maxCount, maxBytes)
  {
    hide DurableId, IdOf, RowBytes;
    hide GivesUp;
    if !MustRefuse(queue, incoming, maxCount, maxBytes) {
      hide MustRefuse;
      EvictionIsLeast(queue, incoming, maxCount, maxBytes, 0);
      var k :| GivesUp(queue, incoming, maxCount, maxBytes, k, rows);
      GivesUpOnce(queue, incoming, maxCount, maxBytes, k, rows, Eviction(queue, incoming, maxCount, maxBytes, 0),
                  Retain(queue, incoming, maxCount, maxBytes));
    }
  }

  /** An accepted row comes last, every promised row stays, nothing else appears, and the bounds hold. */
  lemma RetainKeepsPromises(queue: seq<Row>, incoming: Row, maxCount: nat, maxBytes: nat)
    requires !MustRefuse(queue, incoming, maxCount, maxBytes)
    ensures var rows := Retain(queue, incoming, maxCount, maxBytes);
            && rows != [] && rows[|rows| - 1] == incoming
            && Filter(rows[..|rows| - 1], Durable()) == Filter(queue, Durable())
            && (exists k :: 0 <= k <= |Filter(queue, Transient())|
                            && Filter(rows[..|rows| - 1], Transient()) == Filter(queue, Transient())[k..])
            && (forall row :: row in rows ==> row == incoming || row in queue)
            && |rows| <= maxCount && Bytes(rows) <= maxBytes
  {
    hide DurableId, IdOf, RowBytes;
    EvictionIsLeast(queue, incoming, maxCount, maxBytes, 0);
    var n := Eviction(queue, incoming, maxCount, maxBytes, 0);
    hide MustRefuse;
    WithoutTransientKeeps(queue, n);
    assert (WithoutTransient(queue, n) + [incoming])[..|WithoutTransient(queue, n)|] == WithoutTransient(queue, n);
  }
}
