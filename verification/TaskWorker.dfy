/** The Durable Object job store: a full scan of the records, with ciphertext in chunks. */
module TaskWorker {
  import opened Lists
  import opened Text
  import opened Wire
  import opened TaskPolicy
  import opened TaskJobs
  import opened TaskRecords
  import opened TaskCiphertext
  import TaskNode

  const OFFER_INTERVAL_MS := 15000

  // ---- deadlines ----

  function Sooner(a: Option<int>, b: Option<int>): Option<int> {
    if a.None? then b else if b.None? then a else if b.value < a.value then b else a
  }

  predicate Connected(job: Job, recipients: Option<set<string>>) {
    recipients.None? || (job.envelope.recipientKeyId.Some? && job.envelope.recipientKeyId.value in recipients.value)
  }

  /** When this job next needs the relay's attention. */
  function Deadline(job: Job, recipients: Option<set<string>>, now: int): Option<int> {
    if job.state.Queued? then
      if !Connected(job, recipients) then Some(job.expiresAt)
      else
        var offer := if job.notBefore > now then job.notBefore else now + OFFER_INTERVAL_MS;
        Some(if offer < job.expiresAt then offer else job.expiresAt)
    else if job.state.Accepted? then None
    else Some(Latest(job.expiresAt, job.updatedAt) + RECEIPT_RETENTION_MS)
  }

  /** Strictly before `next`, at no time `t`, does anything the alarm is for happen to this job. */
  predicate QuietUntil(job: Job, recipients: Option<set<string>>, now: int, t: int) {
    && ExpireJob(job, t) == job && !Purgeable(job, t)
    && (job.state.Queued? && Connected(job, recipients) && now < job.notBefore ==> t < job.notBefore)
  }

  /** A job that maintenance left in place stays quiet until its deadline, which is not in the past. */
  lemma DeadlineSound(job: Job, recipients: Option<set<string>>, now: int, t: int)
    requires ExpireJob(job, now) == job && !Purgeable(job, now) && now <= t
    requires Deadline(job, recipients, now).Some? ==> t < Deadline(job, recipients, now).value
    ensures QuietUntil(job, recipients, now, t)
  {
  }

  lemma DeadlineNotPast(job: Job, recipients: Option<set<string>>, now: int)
    requires ExpireJob(job, now) == job && !Purgeable(job, now) && Deadline(job, recipients, now).Some?
    ensures now <= Deadline(job, recipients, now).value
  {
  }

  /**
   * And a deadline is not too early: only accepted work has none, and at any other job's deadline
   * something is due: it expires, it may be offered, or a second offer may be made; or else its
   * receipt's seven days are over, so that it is purged from the next millisecond on.
   */
  lemma DeadlineTight(job: Job, recipients: Option<set<string>>, now: int)
    requires ExpireJob(job, now) == job && !Purgeable(job, now)
    ensures Deadline(job, recipients, now).None? <==> job.state == Accepted
    ensures Deadline(job, recipients, now).Some? ==>
              var at := Deadline(job, recipients, now).value;
              if job.state == Queued then
                || at == job.expiresAt
                || (at < job.expiresAt && Connected(job, recipients)
                    && ((now < job.notBefore && at == job.notBefore) || (job.notBefore <= now && at == now + 15000)))
              else !Purgeable(job, at) && Purgeable(job, at + 1)
    ensures job.state == Queued && Connected(job, recipients) ==>
              Deadline(job, recipients, now).value <= if now < job.notBefore then job.notBefore else now + 15000
  {
  }

  /** A recipient is connected if it is listed; without a list every one counts as connected. */
  lemma ConnectedMeans(job: Job, recipients: Option<set<string>>)
    ensures Connected(job, recipients) <==>
            (recipients.Some? ==> exists r :: r in recipients.value && job.envelope.recipientKeyId == Some(r))
  {
  }

  /** `next` is no later than any deadline, and is one of them. */
  ghost predicate EarliestDeadline(next: Option<int>, jobs: Jobs, configurations: map<string, int>,
                                   recipients: Option<set<string>>, now: int) {
    && (forall id :: id in jobs && Deadline(jobs[id], recipients, now).Some?
                     ==> next.Some? && next.value <= Deadline(jobs[id], recipients, now).value)
    && (forall c :: c in configurations ==> next.Some? && next.value <= configurations[c])
    && (next.Some? ==>
          || (exists id :: id in jobs && Deadline(jobs[id], recipients, now) == next)
          || (exists c :: c in configurations && configurations[c] == next.value))
  }

  // ---- counting a listed room ----

  function WeightAt(jobs: Jobs): string -> nat { (id: string) => if id in jobs then Weight(jobs[id]) else 0 }
  function ActiveAt(jobs: Jobs): string -> bool { (id: string) => id in jobs && RetainsPayload(jobs[id]) }

  lemma ActiveIdsWithout(jobs: Jobs, id: string)
    requires id in jobs
    ensures |ActiveIds(jobs)| == |ActiveIds(jobs - {id})| + (if RetainsPayload(jobs[id]) then 1 else 0)
  {
    hide RetainsPayload;
    assert ActiveIds(jobs) == ActiveIds(jobs - {id}) + (if RetainsPayload(jobs[id]) then {id} else {});
  }

  lemma TailListsRest(jobs: Jobs, keys: seq<string>)
    requires keys != [] && Distinct(keys) && forall id :: id in keys <==> id in jobs
    ensures Distinct(keys[1..]) && forall id :: id in keys[1..] <==> id in jobs - {keys[0]}
  {
  }

  /** Counting and summing along any listing of the room gives the room's totals. */
  lemma {:induction false} ListingTotals(jobs: Jobs, keys: seq<string>)
    requires Distinct(keys) && forall id :: id in keys <==> id in jobs
    ensures Sum(keys, WeightAt(jobs)) == ActiveBytes(jobs)
    ensures |Filter(keys, ActiveAt(jobs))| == |ActiveIds(jobs)|
    decreases keys
  {
    hide RetainsPayload, Weight, Distinct, ActiveIds;
    if keys == [] {
      assert jobs == map[];
      NoActiveIds();
    } else {
      var first, rest := keys[0], jobs - {keys[0]};
      TailListsRest(jobs, keys);
      ActiveBytesWithout(jobs, first);
      ActiveIdsWithout(jobs, first);
      ListingTotals(rest, keys[1..]);
      SumAgrees(keys[1..], WeightAt(jobs), WeightAt(rest));
      FilterCongruent(keys[1..], ActiveAt(jobs), ActiveAt(rest));
    }
  }

  lemma NothingListed(jobs: Jobs)
    ensures Filter([], ActiveAt(jobs)) == [] && Sum([], WeightAt(jobs)) == 0
  {
  }

  lemma OneMoreListed(jobs: Jobs, ids: seq<string>, n: nat)
    requires n < |ids| && ids[n] in jobs
    ensures |Filter(ids[..n + 1], ActiveAt(jobs))| ==
            |Filter(ids[..n], ActiveAt(jobs))| + (if RetainsPayload(jobs[ids[n]]) then 1 else 0)
    ensures Sum(ids[..n + 1], WeightAt(jobs)) == Sum(ids[..n], WeightAt(jobs)) + Weight(jobs[ids[n]])
  {
    assert ids[..n + 1] == ids[..n] + [ids[n]];
    FilterConcat(ids[..n], [ids[n]], ActiveAt(jobs));
    SumConcat(ids[..n], [ids[n]], WeightAt(jobs));
    hide RetainsPayload, Weight;
  }

  lemma NoActiveIds()
    ensures ActiveIds(map[]) == {}
  {
  }

  lemma {:induction false} SumAgrees(keys: seq<string>, f: string -> nat, g: string -> nat)
    requires forall k :: k in keys ==> f(k) == g(k)
    ensures Sum(keys, f) == Sum(keys, g)
  {
    if keys != [] {
      SumAgrees(keys[1..], f, g);
    }
  }

  class WorkerTaskDispatchStore {
    const room: string
    var storage: map<Key, Value>
    /** Expiry times of the stored Project configurations. */
    var configurations: map<string, int>
    /** The jobs this storage stands for, boxes included. */
    ghost var jobs: Jobs

    ghost predicate Valid()
      reads this
    {
      Sound(jobs) && WithinCapacity(jobs) && Represents(storage, jobs)
    }

    constructor (room: string)
      ensures Valid() && jobs == map[] && configurations == map[] && this.room == room
    {
      this.room, storage, configurations, jobs := room, map[], map[], map[];
      assert ActiveIds(map[]) == {};
    }

    /** `deleteCiphertext`. */
    method DeleteCiphertext(id: string, cipher: Option<Cipher>)
      modifies this`storage
      ensures forall k: Key :: Look(storage, k) ==
                if k.BoxKey? && k.id == id && cipher.Some? && k.index < cipher.value.count then None else old(Look(storage, k))
    {
      if cipher.None? {
        return;
      }
      for i := 0 to cipher.value.count
        invariant forall k: Key :: Look(storage, k) ==
                    if k.BoxKey? && k.id == id && k.index < i then None else old(Look(storage, k))
      {
        storage := storage - {BoxKey(id, i)};
      }
    }

    /** `writeTaskJob`. */
    method WriteTaskJob(id: string, row: Job, cipher: Option<Cipher>)
      modifies this`storage
      ensures forall k: Key :: Look(storage, k) == Rewritten(old(storage), k, id, row, cipher)
    {
      var written := cipher;
      if !RetainsPayload(row) {
        DeleteCiphertext(id, cipher);
        written := None;
      } else if cipher.None? && row.envelope.box.Some? {
        var box := row.envelope.box.value;
        written := Some(Cipher(CeilDiv(|box|, CHUNK_UNITS), Digest(box), |box|));
        for i := 0 to written.value.count
          invariant forall k: Key :: Look(storage, k) ==
                      if k.BoxKey? && k.id == id && k.index < i then Some(BoxValue(Slice(box, CHUNK_UNITS, k.index)))
                      else old(Look(storage, k))
        {
          storage := storage[BoxKey(id, i) := BoxValue(Slice(box, CHUNK_UNITS, i))];
        }
      }
      storage := storage[RecordKey(id) := RecordValue(Saved(Boxless(row), written))];
    }

    /** Replaces a stored job by a later version of itself. */
    method Advance(id: string, row: Job, cipher: Option<Cipher>, ghost next: Job)
      requires Valid() && id in jobs && Kept(jobs[id], next) && row == Boxless(next) && cipher == CipherOf(jobs[id])
      modifies this`storage, this`jobs
      ensures Valid() && jobs == old(jobs)[id := next]
    {
      hide JobInv, Kept, WithinCapacity, Weight, NoGain;
      WriteTaskJob(id, row, cipher);
      RewriteKeeps(storage, old(storage), jobs, id, next);
      KeptWeighsNoMore(jobs[id], next);
      OneKeptNoGain(jobs, id, next);
      NoGainKeepsCapacity(jobs, jobs[id := next]);
      jobs := jobs[id := next];
    }

    /** The record saved under an id. */
    method Fetch(id: string) returns (saved: Option<Saved>)
      requires Valid()
      ensures saved == if id in jobs then Some(Saved(Boxless(jobs[id]), CipherOf(jobs[id]))) else None
    {
      assert Look(storage, RecordKey(id)) == Expected(jobs, RecordKey(id));
      saved := if RecordKey(id) in storage then Some(storage[RecordKey(id)].saved) else None;
    }

    /** `listTaskJobRecords` over this room: never refused, since the room's limits bound the records. */
    method ListIds() returns (ids: seq<string>)
      requires Valid()
      ensures Ascending(ids) && Distinct(ids) && forall id :: id in ids <==> id in jobs
    {
      var found := set k | k in storage && k.RecordKey? :: k.id;
      forall id ensures id in found <==> id in jobs {
        assert Look(storage, RecordKey(id)) == Expected(jobs, RecordKey(id));
        assert id in found <==> RecordKey(id) in storage;
      }
      assert found == jobs.Keys;
      assert |found| == |jobs|;
      var keys := InKeyOrder(found);
      AscendingDistinct(keys);
      var records := ListTaskJobRecords(keys);
      ids := records.value;
    }

    /**
     * `rows`: expires what is due to expire, on storage too, and returns every record in key
     * order, each with the cipher field it was read with.
     */
    method Rows(now: int) returns (ids: seq<string>, rows: seq<Saved>)
      requires Valid()
      modifies this`storage, this`jobs
      ensures Valid() && jobs == ExpireAll(old(jobs), now)
      ensures Ascending(ids) && Distinct(ids) && forall id :: id in ids <==> id in jobs
      ensures |rows| == |ids| && forall i :: 0 <= i < |ids| ==> rows[i] == Saved(Boxless(jobs[ids[i]]), CipherOf(old(jobs)[ids[i]]))
    {
      hide JobInv, Kept, Represents, WithinCapacity, Sound, ExpireJob, CipherOf, Boxless, ExpiredSoFar, Ascending, Distinct;
      ids := ListIds();
      rows := [];
      ExpiredStart(jobs, ids, now);
      for n := 0 to |ids|
        invariant Valid() && ExpiredSoFar(old(jobs), jobs, ids[..n], now)
        invariant |rows| == n
        invariant forall i :: 0 <= i < n ==> rows[i] == Saved(Boxless(ExpireJob(old(jobs)[ids[i]], now)), CipherOf(old(jobs)[ids[i]]))
      {
        var id := ids[n];
        ExpiredStep(old(jobs), jobs, ids, n, now);
        var saved := Fetch(id);
        BoxlessExpire(jobs[id], now);
        var row := ExpireJob(saved.value.job, now);
        ExpireKept(jobs, id, now);
        if row != saved.value.job {
          Advance(id, row, saved.value.cipher, ExpireJob(jobs[id], now));
        } else {
          UnchangedByExpiry(jobs[id], now);
          assert jobs == jobs[id := jobs[id]];
        }
        rows := rows + [Saved(row, saved.value.cipher)];
      }
      assert ids[..|ids|] == ids;
      ExpiredDone(old(jobs), jobs, ids, now);
    }

    method Put(id: string, body: Body, now: int) returns (reply: Reply)
      requires Valid()
      modifies this
      ensures Valid() && configurations == old(configurations)
      ensures jobs == PutJob(room, old(jobs), id, body, now).0
      ensures var whole := PutJob(room, old(jobs), id, body, now).1;
              reply == if whole.Replied? && whole.status == 200 then FromRecord(whole) else whole
      ensures Echoed(reply) == Echoed(PutJob(room, old(jobs), id, body, now).1)
      ensures reply.Replied? ==> id in jobs && Shows(reply.job, ExpireJob(jobs[id], now))
    {
      hide JobInv, Represents, WithinCapacity, Sound, NormalizeJob, ExpireJob, ExpireAll, Public, NewJob, Evolves, Shows;
      var existing := Fetch(id);
      var parsed := NormalizeJob(room, id, body, if existing.Some? then existing.value.job.createdAt else now);
      if parsed.None? {
        return Rejected(400);
      }
      if existing.Some? {
        if existing.value.job.fingerprint == parsed.value {
          RepeatedReply(jobs[id], now);
          return Replied(200, Public(ExpireJob(existing.value.job, now)));
        }
        return Rejected(409);
      }
      var ids, rows := Rows(now);
      var count, bytes := Totals(ids, rows);
      assert |rows| == |jobs| by {
        ListingLength(ids);
      }
      if |rows| >= ROOM_RECEIPT_LIMIT || count >= ROOM_JOB_LIMIT || bytes + body.encodedBytes > ROOM_JOB_BYTES {
        return Rejected(429);
      }
      var job := NewJob(id, parsed.value, body.encodedBytes, now);
      NewJobRetains(id, parsed.value, body.encodedBytes, now);
      PublicShows(job);
      Create(job);
      return Replied(201, Public(job));
    }

    /** The active rows and their bytes, counted over the listed records. */
    method Totals(ids: seq<string>, rows: seq<Saved>) returns (count: nat, bytes: nat)
      requires Distinct(ids) && |rows| == |ids| && forall id :: id in ids <==> id in jobs
      requires forall i :: 0 <= i < |ids| ==> rows[i].job == Boxless(jobs[ids[i]])
      ensures count == |ActiveIds(jobs)| && bytes == ActiveBytes(jobs)
    {
      hide ActiveIds, ActiveBytes, Filter, Sum, ActiveAt, WeightAt;
      assert Filter([], ActiveAt(jobs)) == [] && Sum([], WeightAt(jobs)) == 0 by {
        NothingListed(jobs);
      }
      assert ids[..0] == [];
      count, bytes := 0, 0;
      for n := 0 to |rows|
        invariant count == |Filter(ids[..n], ActiveAt(jobs))|
        invariant bytes == Sum(ids[..n], WeightAt(jobs))
      {
        OneMoreListed(jobs, ids, n);
        if RetainsPayload(rows[n].job) {
          count, bytes := count + 1, bytes + rows[n].job.bytes;
        }
      }
      assert ids[..|ids|] == ids;
      ListingTotals(jobs, ids);
    }

    lemma ListingLength(ids: seq<string>)
      requires Distinct(ids) && forall id :: id in ids <==> id in jobs
      ensures |ids| == |jobs|
    {
      DistinctLength(ids, jobs.Keys);
    }

    method Create(job: Job)
      requires Valid() && job.id !in jobs && JobInv(job) && RetainsPayload(job) && !Full(jobs, job.bytes)
      modifies this`storage, this`jobs
      ensures Valid() && jobs == old(jobs)[job.id := job]
    {
      hide JobInv, Full, WithinCapacity;
      WriteTaskJob(job.id, job, None);
      RewriteCreates(storage, old(storage), jobs, job.id, job);
      AdmissionKeepsCapacity(jobs, job.id, job);
      jobs := jobs[job.id := job];
    }

    method Transition(id: string, action: Action, now: int) returns (reply: Reply)
      requires Valid()
      modifies this
      ensures Valid() && configurations == old(configurations)
      ensures jobs == TaskJobs.Transition(old(jobs), id, action, now).0
      ensures reply == FromRecord(TaskJobs.Transition(old(jobs), id, action, now).1)
      ensures Echoed(reply) == Echoed(TaskJobs.Transition(old(jobs), id, action, now).1)
      ensures reply.Replied? ==> id in jobs && Shows(reply.job, jobs[id]) && reply.job.envelope.box == None
    {
      hide JobInv, Evolves, Represents, WithinCapacity, ClaimJob, FinishJob, CancelJob;
      var saved := Fetch(id);
      if saved.None? {
        return Rejected(404);
      }
      BoxlessAct(jobs[id], action, now);
      var outcome := Act(saved.value.job, action, now);
      if outcome.Refused? {
        return Rejected(outcome.status);
      }
      ghost var next := Act(jobs[id], action, now).row;
      Advance(id, outcome.row, saved.value.cipher, next);
      return Replied(outcome.status, Public(outcome.row));
    }

    /**
     * `hydrateTaskJob`, `None` where the source throws. The record carries the cipher field of the
     * job as it was `read`: the box comes back whole and no guard trips, unless the chunks have
     * been deleted since.
     */
    method Hydrate(id: string, saved: Saved, ghost read: Job) returns (job: Option<Job>)
      requires Valid() && id in jobs && JobInv(read) && saved == Saved(Boxless(jobs[id]), CipherOf(read))
      requires jobs[id] == read || !RetainsPayload(jobs[id])
      ensures job == if jobs[id].envelope.box == read.envelope.box then Some(jobs[id]) else None
    {
      hide JobInv, WithinCapacity;
      PayloadHasBox(jobs[id]);
      PayloadHasBox(read);
      if saved.cipher.None? {
        return Some(saved.job);
      }
      var cipher := saved.cipher.value;
      ghost var box := read.envelope.box.value;
      ChunkBound(box);
      if cipher.count < 1 || cipher.count > 350 || cipher.bytes < 24 || cipher.bytes > 22000000 {
        return None;
      }
      var chunks: seq<string> := [];
      for i := 0 to cipher.count
        invariant chunks == Slices(box, CHUNK_UNITS, i)
        invariant i > 0 ==> jobs[id] == read
      {
        assert Look(storage, BoxKey(id, i)) == Expected(jobs, BoxKey(id, i));
        if BoxKey(id, i) !in storage || !storage[BoxKey(id, i)].BoxValue? || |storage[BoxKey(id, i)].text| > CHUNK_UNITS {
          return None;
        }
        chunks := chunks + [storage[BoxKey(id, i)].text];
      }
      JoinSlices(box, CHUNK_UNITS);
      var text := Join(chunks);
      if |text| != cipher.bytes || Digest(text) != cipher.digest {
        return None;
      }
      return Some(saved.job.(envelope := saved.job.envelope.(box := Some(text))));
    }

    /**
     * `getPublic`: expires only this record. The row it then hydrates still carries the cipher
     * field of the record just rewritten, whose chunks are gone.
     */
    method GetPublic(id: string, now: int, metadataOnly: bool) returns (reply: Reply)
      requires Valid()
      modifies this
      ensures Valid() && jobs == ExpireOne(old(jobs), id, now) && configurations == old(configurations)
      ensures reply == ReadReply(Worker, old(jobs), id, metadataOnly, now)
      ensures reply.Replied? ==>
                && id in jobs && Shows(reply.job, jobs[id])
                && (if metadataOnly then reply.job.envelope.box == None else reply.job.envelope == jobs[id].envelope)
    {
      hide JobInv, Represents, WithinCapacity, Kept, Sound;
      var saved := Fetch(id);
      if saved.None? {
        return Rejected(404);
      }
      ghost var read := jobs[id];
      BoxlessExpire(read, now);
      ExpireKept(jobs, id, now);
      ExpiryDropsBox(jobs, id, now);
      var row := ExpireJob(saved.value.job, now);
      if row != saved.value.job {
        Advance(id, row, saved.value.cipher, ExpireJob(read, now));
      } else {
        UnchangedByExpiry(read, now);
        assert jobs == jobs[id := jobs[id]];
      }
      if metadataOnly {
        return Replied(200, Public(row));
      }
      var full := Hydrate(id, Saved(row, saved.value.cipher), read);
      return if full.None? then Rejected(UNHANDLED) else Replied(200, Public(full.value));
    }

    /** `due`: the eligible records sorted by `notBefore, createdAt`; the first one, with its box. */
    method Due(recipient: string, now: int, excluded: set<string>) returns (reply: seq<PublicJob>)
      requires Valid()
      modifies this
      ensures Valid() && jobs == ExpireAll(old(jobs), now) && configurations == old(configurations)
      ensures TaskNode.OffersEarliest(jobs, recipient, now, excluded, reply)
    {
      hide JobInv, Represents, WithinCapacity, Sound, ExpireJob, ExpireAll, TaskNode.OffersEarliest, TaskNode.Eligible, IsDue;
      var ids, rows := Rows(now);
      DueRowsUnexpired(old(jobs), now);
      assert RowsOf(jobs, ids, rows, now);
      var candidates := Filter(rows, IsDue(recipient, now, excluded));
      if candidates == [] {
        NothingDue(jobs, ids, rows, recipient, now, excluded);
        return [];
      }
      var next := Sort(candidates, DueLe)[0];
      FirstIsEarliest(jobs, ids, rows, recipient, now, excluded, next);
      var full := Hydrate(next.job.id, next, jobs[next.job.id]);
      return [Public(full.value)];
    }

    method MaintainConfigurations(now: int) returns (next: Option<int>)
      modifies this`configurations
      ensures configurations == map c | c in old(configurations) && old(configurations)[c] > now :: old(configurations)[c]
      ensures forall c :: c in configurations ==> next.Some? && next.value <= configurations[c]
      ensures next.Some? ==> exists c :: c in configurations && configurations[c] == next.value
    {
      next := None;
      var todo := configurations.Keys;
      while todo != {}
        invariant todo <= configurations.Keys <= old(configurations).Keys
        invariant forall c :: c in configurations ==> configurations[c] == old(configurations)[c]
        invariant forall c :: c in old(configurations) && c !in todo ==> (c in configurations <==> old(configurations)[c] > now)
        invariant forall c :: c in configurations && c !in todo ==> next.Some? && next.value <= configurations[c]
        invariant next.Some? ==> exists c :: c in configurations && c !in todo && configurations[c] == next.value
        decreases todo
      {
        var c :| c in todo;
        if configurations[c] <= now {
          configurations := configurations - {c};
        } else {
          next := Sooner(next, Some(configurations[c]));
        }
        todo := todo - {c};
      }
    }

    /** Deletes a record and its chunks. */
    method Erase(id: string, cipher: Option<Cipher>)
      requires Valid() && id in jobs && cipher == CipherOf(jobs[id])
      modifies this`storage, this`jobs
      ensures Valid() && jobs == old(jobs) - {id}
    {
      hide JobInv, WithinCapacity;
      DeleteCiphertext(id, cipher);
      storage := storage - {RecordKey(id)};
      EraseExact(storage, old(storage), jobs, id);
      NoGainKeepsCapacity(jobs, jobs - {id});
      jobs := jobs - {id};
    }

    /** One turn of the maintenance loop. */
    method MaintainOne(id: string, now: int, recipients: Option<set<string>>, next: Option<int>) returns (later: Option<int>)
      requires Valid() && id in jobs
      modifies this`storage, this`jobs
      ensures Valid()
      ensures var row := ExpireJob(old(jobs)[id], now);
              if Purgeable(row, now) then jobs == old(jobs) - {id} && later == next
              else jobs == old(jobs)[id := row] && later == Sooner(next, Deadline(row, recipients, now))
    {
      hide JobInv, Represents, WithinCapacity, Sound, Kept;
      var saved := Fetch(id);
      BoxlessExpire(jobs[id], now);
      ExpireKept(jobs, id, now);
      var row := ExpireJob(saved.value.job, now);
      if Purgeable(row, now) {
        Erase(id, saved.value.cipher);
        return next;
      }
      ghost var full := ExpireJob(jobs[id], now);
      if row != saved.value.job {
        Advance(id, row, saved.value.cipher, full);
      } else {
        UnchangedByExpiry(jobs[id], now);
        assert jobs == jobs[id := jobs[id]];
      }
      later := Sooner(next, Deadline(row, recipients, now));
    }

    /**
     * `maintain`: purges and expires exactly as the policy says, and returns the earliest moment
     * at which anything in this store will need attention again.
     */
    method Maintain(now: int, recipients: Option<set<string>>) returns (next: Option<int>)
      requires Valid()
      modifies this
      ensures Valid() && jobs == Purge(old(jobs), now)
      ensures configurations == map c | c in old(configurations) && old(configurations)[c] > now :: old(configurations)[c]
      ensures EarliestDeadline(next, jobs, configurations, recipients, now)
    {
      hide JobInv, Represents, WithinCapacity, Sound, ExpireJob, Purgeable, Deadline, PurgedSoFar, DeadlinesSoFar,
           EarliestDeadline, Purge;
      var ids := ListIds();
      next := MaintainConfigurations(now);
      ghost var first := next;
      MaintainStart(jobs, next, recipients, now);
      assert ids[..0] == [];
      for n := 0 to |ids|
        invariant Valid() && PurgedSoFar(old(jobs), jobs, ids[..n], now)
        invariant configurations == map c | c in old(configurations) && old(configurations)[c] > now :: old(configurations)[c]
        invariant DeadlinesSoFar(next, first, jobs, ids[..n], recipients, now)
      {
        NotYetMaintained(old(jobs), jobs, ids, n, now);
        ghost var prior, soonest := jobs, next;
        next := MaintainOne(ids[n], now, recipients, next);
        MaintainStep(old(jobs), prior, jobs, ids, n, recipients, now, first, soonest, next);
      }
      assert ids[..|ids|] == ids;
      MaintainDone(old(jobs), jobs, ids, configurations, first, next, recipients, now);
    }

    /** One event of a run, as the room's HTTP layer and its alarm issue it. */
    method Serve(e: Event) returns (reply: Reply)
      requires Valid()
      modifies this
      ensures Valid() && (jobs, reply) == Step(Worker, room, old(jobs), e)
    {
      hide Sound, PutJob, TaskJobs.Transition, ExpireAll, ExpireOne, Purge, Represents, WithinCapacity, ReadReply,
           EarliestDeadline;
      match e.what {
        case PutRequest(id, body) =>
          reply := Put(id, body, e.now);
          reply := Echoed(reply);
        case ActRequest(id, action) =>
          reply := Transition(id, action, e.now);
          reply := Echoed(reply);
        case GetRequest(id, metadataOnly) =>
          reply := GetPublic(id, e.now, metadataOnly);
        case ScanRequest =>
          var ids, rows := Rows(e.now);
          reply := Rejected(0);
        case Maintenance =>
          var next := Maintain(e.now, None);
          reply := Rejected(0);
      }
    }
  }

  /** Over any run the storage represents the abstract store, and the replies are its replies. */
  method ServeAll(store: WorkerTaskDispatchStore, run: seq<Event>) returns (replies: seq<Reply>)
    requires store.Valid() && store.jobs == map[]
    modifies store
    ensures store.Valid() && store.jobs == Stores(Worker, store.room, run)[|run|]
    ensures Answers(Worker, store.room, run, replies)
  {
    hide Step, Sound, Represents, WithinCapacity;
    replies := [];
    for n := 0 to |run|
      invariant store.Valid() && store.jobs == Stores(Worker, store.room, run)[n]
      invariant |replies| == n && forall k :: 0 <= k < n ==> ReplyAt(Worker, store.room, run, replies, k)
    {
      assert StepsAt(Worker, store.room, run, Stores(Worker, store.room, run), n);
      var reply := store.Serve(run[n]);
      ghost var before := replies;
      replies := replies + [reply];
      assert forall k :: 0 <= k < n ==> ReplyAt(Worker, store.room, run, before, k) ==> ReplyAt(Worker, store.room, run, replies, k);
    }
  }

  /** A record answers like its job, without the box. */
  lemma RepeatedReply(job: Job, now: int)
    ensures Boxless(job).fingerprint == job.fingerprint && Boxless(job).createdAt == job.createdAt
    ensures Public(ExpireJob(Boxless(job), now)) == WithoutBox(Public(ExpireJob(job, now)))
    ensures Shows(Public(ExpireJob(Boxless(job), now)), ExpireJob(job, now))
  {
  }

  lemma NewJobRetains(id: string, c: Canonical, bytes: nat, now: int)
    ensures var job := NewJob(id, c, bytes, now); job.id == id && job.bytes == bytes && RetainsPayload(job)
    ensures now < c.expiresAt ==> ExpireJob(NewJob(id, c, bytes, now), now) == NewJob(id, c, bytes, now)
  {
  }

  lemma MaintainStart(jobs: Jobs, first: Option<int>, recipients: Option<set<string>>, now: int)
    ensures PurgedSoFar(jobs, jobs, [], now) && DeadlinesSoFar(first, first, jobs, [], recipients, now)
  {
  }

  lemma NotYetMaintained(was: Jobs, jobs: Jobs, ids: seq<string>, n: nat, now: int)
    requires n < |ids| && Distinct(ids) && (forall id :: id in ids <==> id in was)
    requires PurgedSoFar(was, jobs, ids[..n], now)
    ensures ids[n] !in ids[..n] && ids[n] in jobs && jobs[ids[n]] == was[ids[n]]
  {
  }

  lemma PurgedStep(was: Jobs, prior: Jobs, jobs: Jobs, done: seq<string>, id: string, now: int)
    requires id !in done && id in prior && id in was && prior[id] == was[id] && PurgedSoFar(was, prior, done, now)
    requires var row := ExpireJob(prior[id], now);
             jobs == if Purgeable(row, now) then prior - {id} else prior[id := row]
    ensures PurgedSoFar(was, jobs, done + [id], now)
  {
  }

  lemma DeadlineStep(prior: Jobs, jobs: Jobs, done: seq<string>, id: string, recipients: Option<set<string>>, now: int,
                     first: Option<int>, soonest: Option<int>, next: Option<int>)
    requires id !in done && id in prior && DeadlinesSoFar(soonest, first, prior, done, recipients, now)
    requires forall other :: other != id ==> (other in prior <==> other in jobs) && (other in jobs ==> jobs[other] == prior[other])
    requires next == if id in jobs then Sooner(soonest, Deadline(jobs[id], recipients, now)) else soonest
    ensures DeadlinesSoFar(next, first, jobs, done + [id], recipients, now)
  {
  }

  lemma MaintainStep(was: Jobs, prior: Jobs, jobs: Jobs, ids: seq<string>, n: nat, recipients: Option<set<string>>, now: int,
                     first: Option<int>, soonest: Option<int>, next: Option<int>)
    requires n < |ids| && ids[n] !in ids[..n] && ids[n] in prior && ids[n] in was && prior[ids[n]] == was[ids[n]]
    requires PurgedSoFar(was, prior, ids[..n], now) && DeadlinesSoFar(soonest, first, prior, ids[..n], recipients, now)
    requires var row := ExpireJob(prior[ids[n]], now);
             if Purgeable(row, now) then jobs == prior - {ids[n]} && next == soonest
             else jobs == prior[ids[n] := row] && next == Sooner(soonest, Deadline(row, recipients, now))
    ensures PurgedSoFar(was, jobs, ids[..n + 1], now) && DeadlinesSoFar(next, first, jobs, ids[..n + 1], recipients, now)
  {
    hide ExpireJob, Purgeable, Deadline, PurgedSoFar, DeadlinesSoFar, Sooner;
    assert ids[..n + 1] == ids[..n] + [ids[n]];
    PurgedStep(was, prior, jobs, ids[..n], ids[n], now);
    DeadlineStep(prior, jobs, ids[..n], ids[n], recipients, now, first, soonest, next);
  }

  lemma MaintainDone(was: Jobs, jobs: Jobs, ids: seq<string>, configurations: map<string, int>, first: Option<int>,
                     next: Option<int>, recipients: Option<set<string>>, now: int)
    requires forall id :: id in ids <==> id in was
    requires PurgedSoFar(was, jobs, ids, now) && DeadlinesSoFar(next, first, jobs, ids, recipients, now)
    requires forall c :: c in configurations ==> first.Some? && first.value <= configurations[c]
    requires first.Some? ==> exists c :: c in configurations && configurations[c] == first.value
    ensures jobs == Purge(was, now) && EarliestDeadline(next, jobs, configurations, recipients, now)
  {
  }

  /** The jobs when the listed ones have been maintained: purged or marked expired as the policy says. */
  ghost predicate PurgedSoFar(was: Jobs, jobs: Jobs, done: seq<string>, now: int) {
    && (forall id :: id in jobs <==> id in was && (id in done ==> !Purgeable(ExpireJob(was[id], now), now)))
    && (forall id :: id in jobs ==> jobs[id] == if id in done then ExpireJob(was[id], now) else was[id])
  }

  /** `next` is the least of `first` and the deadlines of the maintained jobs that remain. */
  ghost predicate DeadlinesSoFar(next: Option<int>, first: Option<int>, jobs: Jobs, done: seq<string>,
                                 recipients: Option<set<string>>, now: int) {
    && (first.Some? ==> next.Some? && next.value <= first.value)
    && (forall id :: id in done && id in jobs && Deadline(jobs[id], recipients, now).Some?
                     ==> next.Some? && next.value <= Deadline(jobs[id], recipients, now).value)
    && (next.Some? ==> next == first || exists id :: id in done && id in jobs && Deadline(jobs[id], recipients, now) == next)
  }

  function IsDue(recipient: string, now: int, excluded: set<string>): Saved -> bool {
    (r: Saved) => r.job.state.Queued? && r.job.notBefore <= now
                  && r.job.envelope.recipientKeyId == Some(recipient) && r.job.id !in excluded
  }

  predicate DueLe(a: Saved, b: Saved) { TaskNode.NoLater(a.job, b.job) }

  lemma DueOrdering(rows: seq<Saved>)
    ensures Ordering(rows, DueLe)
  {
  }

  lemma FirstOfSorted(rows: seq<Saved>, first: Saved)
    requires rows != [] && first == Sort(rows, DueLe)[0]
    ensures first in rows && forall r :: r in rows ==> TaskNode.NoLater(first.job, r.job)
  {
    DueOrdering(rows);
    SortSorted(rows, DueLe);
    var sorted := Sort(rows, DueLe);
    forall r | r in rows ensures TaskNode.NoLater(first.job, r.job) {
      var i :| 0 <= i < |sorted| && sorted[i] == r;
      if i > 0 {
        assert DueLe(sorted[0], sorted[i]);
      }
    }
  }

  /** The listed rows of a room in which everything due to expire has expired. */
  ghost predicate RowsOf(jobs: Jobs, ids: seq<string>, rows: seq<Saved>, now: int) {
    && Sound(jobs) && |rows| == |ids| && (forall id :: id in ids <==> id in jobs)
    && (forall i :: 0 <= i < |ids| ==> rows[i].job == Boxless(jobs[ids[i]]))
    && (forall i :: 0 <= i < |ids| && jobs[ids[i]].state.Queued? ==>
          rows[i].cipher == CipherOf(jobs[ids[i]]) && now < jobs[ids[i]].expiresAt)
  }

  lemma CandidateIffEligible(jobs: Jobs, ids: seq<string>, rows: seq<Saved>, recipient: string, now: int,
                             excluded: set<string>, i: nat)
    requires RowsOf(jobs, ids, rows, now) && i < |ids|
    ensures IsDue(recipient, now, excluded)(rows[i]) <==> TaskNode.Eligible(jobs[ids[i]], recipient, now, excluded)
    ensures rows[i].job.id == ids[i] && JobInv(jobs[ids[i]])
  {
  }

  lemma NothingDue(jobs: Jobs, ids: seq<string>, rows: seq<Saved>, recipient: string, now: int, excluded: set<string>)
    requires RowsOf(jobs, ids, rows, now) && Filter(rows, IsDue(recipient, now, excluded)) == []
    ensures TaskNode.OffersEarliest(jobs, recipient, now, excluded, [])
  {
    forall id | id in jobs ensures !TaskNode.Eligible(jobs[id], recipient, now, excluded) {
      var i :| 0 <= i < |ids| && ids[i] == id;
      CandidateIffEligible(jobs, ids, rows, recipient, now, excluded, i);
      assert rows[i] !in Filter(rows, IsDue(recipient, now, excluded));
    }
  }

  lemma FirstIsEarliest(jobs: Jobs, ids: seq<string>, rows: seq<Saved>, recipient: string, now: int, excluded: set<string>,
                        next: Saved)
    requires RowsOf(jobs, ids, rows, now) && Filter(rows, IsDue(recipient, now, excluded)) != []
    requires next == Sort(Filter(rows, IsDue(recipient, now, excluded)), DueLe)[0]
    ensures var id := next.job.id;
            && id in jobs && JobInv(jobs[id]) && next == Saved(Boxless(jobs[id]), CipherOf(jobs[id]))
            && TaskNode.OffersEarliest(jobs, recipient, now, excluded, [Public(jobs[id])])
  {
    hide RowsOf, JobInv;
    var candidates := Filter(rows, IsDue(recipient, now, excluded));
    FirstOfSorted(candidates, next);
    var at := RowIndex(jobs, ids, rows, recipient, now, excluded, next);
    forall other | other in jobs && TaskNode.Eligible(jobs[other], recipient, now, excluded)
      ensures TaskNode.NoLater(jobs[ids[at]], jobs[other])
    {
      var i := EligibleRow(jobs, ids, rows, recipient, now, excluded, other);
      assert rows[i] in candidates;
    }
  }

  lemma RowIndex(jobs: Jobs, ids: seq<string>, rows: seq<Saved>, recipient: string, now: int, excluded: set<string>,
                 next: Saved) returns (at: nat)
    requires RowsOf(jobs, ids, rows, now) && next in rows && IsDue(recipient, now, excluded)(next)
    ensures at < |ids| == |rows| && rows[at] == next && ids[at] == next.job.id && ids[at] in jobs && JobInv(jobs[ids[at]])
    ensures next == Saved(Boxless(jobs[ids[at]]), CipherOf(jobs[ids[at]]))
    ensures TaskNode.Eligible(jobs[ids[at]], recipient, now, excluded)
  {
    at :| 0 <= at < |rows| && rows[at] == next;
    CandidateIffEligible(jobs, ids, rows, recipient, now, excluded, at);
    hide JobInv;
    assert ids[at] in ids;
  }

  lemma EligibleRow(jobs: Jobs, ids: seq<string>, rows: seq<Saved>, recipient: string, now: int, excluded: set<string>,
                    id: string) returns (at: nat)
    requires RowsOf(jobs, ids, rows, now) && id in jobs && TaskNode.Eligible(jobs[id], recipient, now, excluded)
    ensures at < |rows| && rows[at].job == Boxless(jobs[id]) && IsDue(recipient, now, excluded)(rows[at])
  {
    at :| 0 <= at < |ids| && ids[at] == id;
    CandidateIffEligible(jobs, ids, rows, recipient, now, excluded, at);
    hide JobInv;
  }

  lemma DueRowsUnexpired(jobs: Jobs, now: int)
    ensures forall id :: id in jobs && ExpireAll(jobs, now)[id].state.Queued? ==> now < ExpireAll(jobs, now)[id].expiresAt
    ensures forall id :: id in jobs && ExpireAll(jobs, now)[id].state.Queued? ==> ExpireAll(jobs, now)[id] == jobs[id]
  {
  }

  /** Only the read that expires a queued job takes its box away. */
  lemma ExpiryDropsBox(jobs: Jobs, id: string, now: int)
    requires Sound(jobs) && id in jobs
    ensures JobInv(jobs[id])
    ensures ExpiresNow(jobs[id], now) <==> ExpireJob(jobs[id], now) != jobs[id]
    ensures ExpiresNow(jobs[id], now) ==> jobs[id].envelope.box.Some? && ExpireJob(jobs[id], now).envelope.box.None?
                                          && !RetainsPayload(ExpireJob(jobs[id], now))
  {
  }

  lemma {:induction false} DistinctLength(ids: seq<string>, keys: set<string>)
    requires Distinct(ids) && forall id :: id in ids <==> id in keys
    ensures |ids| == |keys|
    decreases ids
  {
    if ids == [] {
      assert keys == {};
    } else {
      forall id ensures id in ids[1..] <==> id in keys - {ids[0]} {
        if id in ids[1..] {
          var i :| 0 <= i < |ids| - 1 && ids[1..][i] == id;
          assert ids[i + 1] == id;
        }
      }
      DistinctLength(ids[1..], keys - {ids[0]});
    }
  }

  /** The listed ids have been expired, the others not yet. */
  ghost predicate ExpiredSoFar(was: Jobs, jobs: Jobs, done: seq<string>, now: int) {
    && jobs.Keys == was.Keys
    && forall id :: id in was ==> jobs[id] == if id in done then ExpireJob(was[id], now) else was[id]
  }

  lemma ExpiredStart(jobs: Jobs, ids: seq<string>, now: int)
    ensures ExpiredSoFar(jobs, jobs, ids[..0], now)
  {
  }

  lemma ExpiredStep(was: Jobs, jobs: Jobs, ids: seq<string>, n: nat, now: int)
    requires n < |ids| && Distinct(ids) && (forall id :: id in ids <==> id in was)
    requires ExpiredSoFar(was, jobs, ids[..n], now)
    ensures ids[n] in jobs && jobs[ids[n]] == was[ids[n]]
    ensures ExpiredSoFar(was, jobs[ids[n] := ExpireJob(jobs[ids[n]], now)], ids[..n + 1], now)
  {
  }

  lemma ExpiredDone(was: Jobs, jobs: Jobs, ids: seq<string>, now: int)
    requires (forall id :: id in ids <==> id in was) && ExpiredSoFar(was, jobs, ids, now)
    ensures jobs == ExpireAll(was, now)
  {
  }

  lemma OneKeptNoGain(jobs: Jobs, id: string, next: Job)
    requires Sound(jobs) && id in jobs && Kept(jobs[id], next)
    ensures NoGain(jobs, jobs[id := next]) && Sound(jobs[id := next])
  {
  }

  lemma ExpireKept(jobs: Jobs, id: string, now: int)
    requires Sound(jobs) && id in jobs
    ensures Kept(jobs[id], ExpireJob(jobs[id], now))
  {
  }

  /** If expiry leaves a record without its box alone, it leaves the job alone. */
  lemma UnchangedByExpiry(job: Job, now: int)
    requires ExpireJob(Boxless(job), now) == Boxless(job)
    ensures ExpireJob(job, now) == job
  {
  }
}
