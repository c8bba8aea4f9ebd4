/** The SQLite job store: one row per job, its record beside indexed copies of six fields. */
module TaskNode {
  import opened Lists
  import opened Wire
  import opened TaskPolicy
  import opened TaskJobs

  /** A row: the record, and the columns queries filter and sort by. */
  datatype Row = Row(record: Job, state: State, recipient: Option<string>, notBefore: int, expiresAt: int,
                     updatedAt: int, payloadBytes: nat)

  function Indexed(job: Job): Row {
    Row(job, job.state, job.envelope.recipientKeyId, job.notBefore, job.expiresAt, job.updatedAt, job.bytes)
  }

  // ---- which job is due ----

  /** Queued, due, unexpired, for this recipient and not excluded. */
  predicate Eligible(job: Job, recipient: string, now: int, excluded: set<string>) {
    && job.state.Queued? && job.envelope.recipientKeyId == Some(recipient)
    && job.notBefore <= now < job.expiresAt && job.id !in excluded
  }

  predicate NoLater(a: Job, b: Job) {
    a.notBefore < b.notBefore || (a.notBefore == b.notBefore && a.createdAt <= b.createdAt)
  }

  /** `reply` offers at most one job: an eligible one that was scheduled first, then created first. */
  ghost predicate OffersEarliest(jobs: Jobs, recipient: string, now: int, excluded: set<string>, reply: seq<PublicJob>) {
    if forall id :: id in jobs ==> !Eligible(jobs[id], recipient, now, excluded) then reply == []
    else exists id :: id in jobs && Eligible(jobs[id], recipient, now, excluded) && reply == [Public(jobs[id])]
           && forall other :: other in jobs && Eligible(jobs[other], recipient, now, excluded) ==> NoLater(jobs[id], jobs[other])
  }

  function JobsOf(table: map<string, Row>): Jobs { map id | id in table :: table[id].record }

  /** The columns always agree with the records. */
  ghost predicate InStep(table: map<string, Row>) {
    forall id :: id in table ==> table[id] == Indexed(table[id].record) && table[id].record.id == id
  }

  /** The rows the SQL of `due` finds. */
  function DueIds(table: map<string, Row>, recipient: string, now: int, excluded: set<string>): set<string> {
    set id | id in table && table[id].state.Queued? && table[id].recipient == Some(recipient)
             && table[id].notBefore <= now && table[id].expiresAt > now && id !in excluded
  }

  lemma DueIdsEligible(table: map<string, Row>, recipient: string, now: int, excluded: set<string>)
    requires InStep(table)
    ensures var found := DueIds(table, recipient, now, excluded);
            && found <= table.Keys && (forall id :: id in found ==> table[id].state.Queued?)
            && (forall id :: id in table ==> (id in found <==> Eligible(table[id].record, recipient, now, excluded)))
            && (found == {} ==> OffersEarliest(JobsOf(table), recipient, now, excluded, []))
  {
  }

  lemma EarliestOffered(table: map<string, Row>, recipient: string, now: int, excluded: set<string>, first: string)
    requires InStep(table) && first in DueIds(table, recipient, now, excluded)
    requires forall id :: id in DueIds(table, recipient, now, excluded) ==> NoLater(table[first].record, table[id].record)
    ensures first in table && OffersEarliest(JobsOf(table), recipient, now, excluded, [Public(table[first].record)])
  {
    DueIdsEligible(table, recipient, now, excluded);
    hide NoLater, Public, DueIds, Eligible, Indexed;
    assert Eligible(JobsOf(table)[first], recipient, now, excluded);
  }

  /** The rows of `done` have been expired, the others not yet. */
  ghost predicate ExpiredSoFar(was: map<string, Row>, table: map<string, Row>, done: set<string>, now: int) {
    && table.Keys == was.Keys
    && forall id :: id in was ==> table[id].record == if id in done then ExpireJob(was[id].record, now) else was[id].record
  }

  lemma NothingExpired(table: map<string, Row>, now: int)
    ensures ExpiredSoFar(table, table, {}, now)
  {
  }

  lemma ExpiredStep(was: map<string, Row>, table: map<string, Row>, done: set<string>, id: string, now: int)
    requires InStep(table) && ExpiredSoFar(was, table, done, now) && id in was && id !in done
    ensures id in table && table[id].record.id == id && ExpireJob(table[id].record, now).id == id
    ensures ExpiredSoFar(was, table[id := Indexed(ExpireJob(table[id].record, now))], done + {id}, now)
  {
    hide ExpireJob;
  }

  lemma ExpiredAll(was: map<string, Row>, table: map<string, Row>, found: set<string>, now: int)
    requires InStep(was) && ExpiredSoFar(was, table, found, now)
    requires found == set id | id in was && was[id].state.Queued? && was[id].expiresAt <= now
    ensures JobsOf(table) == ExpireAll(JobsOf(was), now)
  {
    forall id | id in was && id !in found ensures ExpireJob(was[id].record, now) == was[id].record {
      assert was[id] == Indexed(was[id].record);
    }
    hide ExpireJob, Indexed;
  }

  class NodeTaskDispatchStore {
    const room: string
    var table: map<string, Row>

    constructor (room: string)
      ensures Valid() && Stored() == map[] && this.room == room
    {
      this.room, table := room, map[];
    }

    ghost predicate Valid()
      reads this
    {
      InStep(table)
    }

    /** The jobs this table stands for. */
    ghost function Stored(): Jobs
      reads this
    {
      JobsOf(table)
    }

    method Save(job: Job)
      requires Valid()
      modifies this
      ensures table == old(table)[job.id := Indexed(job)]
      ensures Valid() && Stored() == old(Stored())[job.id := job]
    {
      table := table[job.id := Indexed(job)];
    }

    /** `expireQueued`: the rows the index finds are exactly those that expire. */
    method ExpireQueued(now: int)
      requires Valid()
      modifies this
      ensures Valid() && Stored() == ExpireAll(old(Stored()), now)
    {
      hide JobInv, Evolves, ExpiredSoFar, ExpireAll, Indexed;
      var found := set id | id in table && table[id].state.Queued? && table[id].expiresAt <= now;
      var todo := found;
      ghost var done: set<string> := {};
      NothingExpired(table, now);
      while todo != {}
        invariant Valid() && table.Keys == old(table).Keys && ExpiredSoFar(old(table), table, done, now)
        invariant todo + done == found <= old(table).Keys && todo !! done
        decreases todo
      {
        var id :| id in todo;
        ExpiredStep(old(table), table, done, id, now);
        Save(ExpireJob(table[id].record, now));
        todo, done := todo - {id}, done + {id};
      }
      ExpiredAll(old(table), table, found, now);
    }

    /** `COUNT(*)` and `SUM(payload_bytes)` over the active rows. */
    method ActiveTotals() returns (count: nat, bytes: nat)
      requires Valid()
      ensures count == |ActiveIds(Stored())| && bytes == ActiveBytes(Stored())
    {
      var active := set id | id in table && (table[id].state.Queued? || table[id].state.Accepted? || table[id].state.Failed?);
      assert active == ActiveIds(Stored());
      count, bytes := |active|, 0;
      var todo := active;
      ghost var counted: Jobs := Stored() - active;
      InactiveWeighNothing(counted);
      while todo != {}
        invariant todo <= active && counted == Stored() - todo
        invariant bytes == ActiveBytes(counted)
        decreases todo
      {
        var id :| id in todo;
        todo := todo - {id};
        ActiveBytesWithout(Stored() - todo, id);
        assert Stored() - todo - {id} == counted;
        bytes := bytes + table[id].payloadBytes;
        counted := Stored() - todo;
      }
      assert Stored() - {} == Stored();
    }

    method Put(id: string, body: Body, now: int) returns (reply: Reply)
      requires Valid()
      modifies this
      ensures Valid() && (Stored(), reply) == PutJob(room, old(Stored()), id, body, now)
      ensures reply.Replied? ==> id in Stored() && Shows(reply.job, ExpireJob(Stored()[id], now))
    {
      hide JobInv;
      var parsed := NormalizeJob(room, id, body, if id in table then table[id].record.createdAt else now);
      if parsed.None? {
        return Rejected(400);
      }
      if id in table {
        if table[id].record.fingerprint == parsed.value {
          return Replied(200, Public(ExpireJob(table[id].record, now)));
        }
        return Rejected(409);
      }
      ExpireQueued(now);
      var active, bytes := ActiveTotals();
      assert table.Keys == Stored().Keys;
      assert |table| == |table.Keys| && |Stored()| == |Stored().Keys|;
      if |table| >= ROOM_RECEIPT_LIMIT || active >= ROOM_JOB_LIMIT || bytes + body.encodedBytes > ROOM_JOB_BYTES {
        return Rejected(429);
      }
      var job := NewJob(id, parsed.value, body.encodedBytes, now);
      Save(job);
      return Replied(201, Public(job));
    }

    method Transition(id: string, action: Action, now: int) returns (reply: Reply)
      requires Valid() && Sound(Stored())
      modifies this
      ensures Valid() && (Stored(), reply) == TaskJobs.Transition(old(Stored()), id, action, now)
      ensures reply.Replied? ==> id in Stored() && Shows(reply.job, Stored()[id])
    {
      hide JobInv, ClaimJob, FinishJob, CancelJob;
      if id !in table {
        return Rejected(404);
      }
      var outcome := Act(table[id].record, action, now);
      if outcome.Refused? {
        return Rejected(outcome.status);
      }
      assert JobInv(Stored()[id]);
      KeptWeighsNoMore(table[id].record, outcome.row);
      Save(outcome.row);
      return Replied(outcome.status, Public(outcome.row));
    }

    /** `getPublic`: reading one job expires every queued job of the room first. */
    method GetPublic(id: string, now: int, metadataOnly: bool) returns (job: Option<PublicJob>)
      requires Valid()
      modifies this
      ensures Valid() && Stored() == ExpireAll(old(Stored()), now)
      ensures job == if id !in old(Stored()) then None
                     else if metadataOnly then Some(WithoutCiphertext(Public(ExpireJob(old(Stored())[id], now))))
                     else Some(Public(ExpireJob(old(Stored())[id], now)))
      ensures job.Some? <==> id in Stored()
      ensures job.Some? ==> Shows(job.value, Stored()[id])
                            && (if metadataOnly then job.value.envelope.box == None && job.value.envelope.nonce == None
                                else job.value.envelope == Stored()[id].envelope)
    {
      ExpireQueued(now);
      if id !in table {
        return None;
      }
      job := Some(if metadataOnly then WithoutCiphertext(Public(table[id].record)) else Public(table[id].record));
    }

    /** `due`: the queued rows in `not_before, updated_at` order, the first one only. */
    method Due(recipient: string, now: int, excluded: set<string>) returns (reply: seq<PublicJob>)
      requires Valid() && Sound(Stored())
      modifies this
      ensures Valid() && Stored() == ExpireAll(old(Stored()), now)
      ensures OffersEarliest(Stored(), recipient, now, excluded, reply)
    {
      hide JobInv, ExpireJob, NoLater, Public, ExpireAll, Sound, OffersEarliest, DueIds, Indexed;
      ExpireAllSound(Stored(), now);
      ExpireQueued(now);
      var found := DueIds(table, recipient, now, excluded);
      DueIdsEligible(table, recipient, now, excluded);
      if found == {} {
        return [];
      }
      var first := FirstDue(found);
      EarliestOffered(table, recipient, now, excluded, first);
      reply := [Public(table[first].record)];
    }

    /** `ORDER BY not_before, updated_at LIMIT 1`; a queued job was never updated since its creation. */
    method FirstDue(found: set<string>) returns (first: string)
      requires Valid() && Sound(Stored()) && {} != found <= table.Keys
      requires forall id :: id in found ==> table[id].state.Queued?
      ensures first in found
      ensures forall id :: id in found ==> NoLater(table[first].record, table[id].record)
    {
      hide JobInv;
      forall id | id in found ensures table[id].updatedAt == table[id].record.createdAt {
        assert JobInv(Stored()[id]);
        QueuedUntouched(table[id].record);
      }
      first :| first in found;
      var todo := found - {first};
      while todo != {}
        invariant todo <= found && first in found
        invariant forall id :: id in found - todo ==> NoLater(table[first].record, table[id].record)
        decreases todo
      {
        var id :| id in todo;
        if || table[id].notBefore < table[first].notBefore
           || (table[id].notBefore == table[first].notBefore && table[id].updatedAt < table[first].updatedAt)
        {
          first := id;
        }
        todo := todo - {id};
      }
    }

    method PurgeRow(id: string, now: int)
      requires Valid() && id in table
      modifies this
      ensures Valid()
      ensures var row := ExpireJob(old(table)[id].record, now);
              table == if Purgeable(row, now) then old(table) - {id} else old(table)[id := Indexed(row)]
    {
      hide JobInv, Evolves, ExpireJob, Purgeable;
      var row := ExpireJob(table[id].record, now);
      Save(row);
      if Purgeable(row, now) {
        table := table - {id};
      }
    }

    /** `purgeInTransaction`: the prefilter on indexed columns misses no row the full rule deletes. */
    method PurgeInTransaction(now: int)
      requires Valid()
      modifies this
      ensures Valid() && Stored() == Purge(old(Stored()), now)
    {
      hide JobInv, Evolves, ExpireJob, Purgeable, PurgedSoFar, PurgeIds, Indexed, Purge;
      var found := PurgeIds(table, now);
      var todo := found;
      ghost var done: set<string> := {};
      NothingPurged(table, now);
      while todo != {}
        invariant Valid() && PurgedSoFar(old(table), table, done, now)
        invariant todo + done == found <= old(table).Keys && todo !! done
        decreases todo
      {
        var id :| id in todo;
        RowPurged(old(table), table, done, id, now);
        PurgeRow(id, now);
        todo, done := todo - {id}, done + {id};
      }
      PurgeFinished(old(table), table, now);
    }

    /** One event of a run, as the room's HTTP layer and its minute timer issue it. */
    method Serve(e: Event) returns (reply: Reply)
      requires Valid() && Sound(Stored())
      modifies this
      ensures Valid() && (Stored(), reply) == Step(Node, room, old(Stored()), e)
    {
      hide Sound, PutJob, TaskJobs.Transition, ExpireAll, Purge, Public, ExpireJob, InStep;
      match e.what {
        case PutRequest(id, body) =>
          reply := Put(id, body, e.now);
          reply := Echoed(reply);
        case ActRequest(id, action) =>
          reply := Transition(id, action, e.now);
          reply := Echoed(reply);
        case GetRequest(id, metadataOnly) =>
          var job := GetPublic(id, e.now, metadataOnly);
          reply := if job.Some? then Replied(200, job.value) else Rejected(404);
        case ScanRequest =>
          ExpireQueued(e.now);
          reply := Rejected(0);
        case Maintenance =>
          PurgeInTransaction(e.now);
          reply := Rejected(0);
      }
    }
  }

  /** Over any run the table is the abstract store, and so are the replies. */
  method ServeAll(store: NodeTaskDispatchStore, run: seq<Event>) returns (replies: seq<Reply>)
    requires store.Valid() && store.Stored() == map[]
    modifies store
    ensures store.Valid() && store.Stored() == Stores(Node, store.room, run)[|run|]
    ensures Answers(Node, store.room, run, replies)
  {
    hide Step, Sound, InStep, JobsOf;
    replies := [];
    for n := 0 to |run|
      invariant store.Valid() && store.Stored() == Stores(Node, store.room, run)[n]
      invariant |replies| == n && forall k :: 0 <= k < n ==> ReplyAt(Node, store.room, run, replies, k)
    {
      ReachableStore(Node, store.room, run, n);
      assert StepsAt(Node, store.room, run, Stores(Node, store.room, run), n);
      var reply := store.Serve(run[n]);
      ghost var before := replies;
      replies := replies + [reply];
      assert forall k :: 0 <= k < n ==> ReplyAt(Node, store.room, run, before, k) ==> ReplyAt(Node, store.room, run, replies, k);
    }
  }

  /** The table when the rows of `done` have been purged: deleted or marked expired as the policy says. */
  ghost predicate PurgedSoFar(was: map<string, Row>, table: map<string, Row>, done: set<string>, now: int) {
    && (forall id :: id in table <==> id in was && (id in done ==> !Purgeable(ExpireJob(was[id].record, now), now)))
    && (forall id :: id in table ==> table[id] == if id in done then Indexed(ExpireJob(was[id].record, now)) else was[id])
  }

  /** The rows the SQL of `purgeInTransaction` finds. */
  function PurgeIds(table: map<string, Row>, now: int): (ids: set<string>)
    ensures ids <= table.Keys
  {
    var limit := now - RECEIPT_RETENTION_MS;
    set id | id in table && ((table[id].state.Queued? && table[id].expiresAt <= now)
                             || (!table[id].state.Accepted? && table[id].expiresAt < limit && table[id].updatedAt < limit))
  }

  lemma NothingPurged(table: map<string, Row>, now: int)
    ensures PurgedSoFar(table, table, {}, now)
  {
  }

  lemma RowPurged(was: map<string, Row>, table: map<string, Row>, done: set<string>, id: string, now: int)
    requires PurgedSoFar(was, table, done, now) && id in was && id !in done
    ensures id in table
    ensures var row := ExpireJob(table[id].record, now);
            PurgedSoFar(was, if Purgeable(row, now) then table - {id} else table[id := Indexed(row)], done + {id}, now)
  {
    hide ExpireJob, Purgeable, Indexed;
  }

  lemma PurgeFinished(was: map<string, Row>, table: map<string, Row>, now: int)
    requires InStep(was) && PurgedSoFar(was, table, PurgeIds(was, now), now)
    ensures JobsOf(table) == Purge(JobsOf(was), now)
  {
    forall id | id in was && id !in PurgeIds(was, now)
      ensures ExpireJob(was[id].record, now) == was[id].record && !Purgeable(was[id].record, now)
    {
      assert was[id] == Indexed(was[id].record);
      PrefilterMissesNothing(was[id].record, now);
    }
    hide ExpireJob, Purgeable, PurgeIds;
  }

  /** A row outside the SQL prefilter neither expires now nor is past its retention. */
  lemma PrefilterMissesNothing(job: Job, now: int)
    requires !(job.state.Queued? && job.expiresAt <= now)
    requires job.state.Accepted? || job.expiresAt >= now - RECEIPT_RETENTION_MS || job.updatedAt >= now - RECEIPT_RETENTION_MS
    ensures ExpireJob(job, now) == job && !Purgeable(job, now)
  {
  }

  /** The SQL prefilter finds exactly the rows the purge changes: those due to expire, and those past their retention. */
  lemma PrefilterExact(table: map<string, Row>, now: int)
    requires InStep(table)
    ensures forall id :: id in PurgeIds(table, now) <==>
              && id in table
              && var job := table[id].record;
                 || (job.state == Queued && job.expiresAt <= now)
                 || (job.state != Accepted && job.expiresAt + 604800000 < now && job.updatedAt + 604800000 < now)
  {
    forall id | id in table
      ensures table[id] == Indexed(table[id].record)
    {
    }
  }

  lemma QueuedUntouched(job: Job)
    requires JobInv(job) && job.state.Queued?
    ensures job.updatedAt == job.createdAt
  {
  }
}
