/**
 * One room's durable jobs as a map, the store operations on it, and what holds over whole runs.
 * Expiry is lazy: an operation may leave an expired job marked as queued until it is next read.
 */
module TaskJobs {
  import opened Lists
  import opened Wire
  import opened TaskPolicy

  type Jobs = map<string, Job>

  /** The reply's view of a job. */
  datatype PublicJob = PublicJob(
    id: string, state: State, notBefore: int, expiresAt: int, createdAt: int, updatedAt: int, envelope: Envelope,
    resultCode: Option<string>, writerId: Option<string>, resultEnvelope: Option<Envelope>)

  function Public(job: Job): PublicJob {
    PublicJob(job.id, job.state, job.notBefore, job.expiresAt, job.createdAt, job.updatedAt, job.envelope, job.resultCode,
              if job.writer.Some? then Some(job.writer.value.0) else None, job.resultEnvelope)
  }

  function Bare(e: Envelope): Envelope { e.(box := None, nonce := None) }

  /** The view shows this job, field by field; of its envelope at least where it goes. */
  predicate Shows(view: PublicJob, job: Job) {
    && view.id == job.id && view.state == job.state && view.notBefore == job.notBefore && view.expiresAt == job.expiresAt
    && view.createdAt == job.createdAt && view.updatedAt == job.updatedAt
    && view.resultCode == job.resultCode && view.resultEnvelope == job.resultEnvelope
    && (view.writerId.Some? <==> job.writer.Some?) && (job.writer.Some? ==> view.writerId == Some(job.writer.value.0))
    && Bare(view.envelope) == Bare(job.envelope)
  }

  lemma PublicShows(job: Job)
    ensures Shows(Public(job), job)
  {
  }

  datatype Reply = Rejected(status: int) | Replied(status: int, job: PublicJob)

  datatype Action = Claim(proof: Proof, hash: string) | Finish(proof: Proof, hash: string) | Cancel

  // ---- the operations ----

  function ExpireAll(jobs: Jobs, now: int): (r: Jobs)
    ensures r.Keys == jobs.Keys
    ensures forall id :: id in jobs ==> r[id] == ExpireJob(jobs[id], now)
  {
    map id | id in jobs :: ExpireJob(jobs[id], now)
  }

  function ExpireOne(jobs: Jobs, id: string, now: int): Jobs {
    if id in jobs then jobs[id := ExpireJob(jobs[id], now)] else jobs
  }

  function ActiveIds(jobs: Jobs): set<string> { set id | id in jobs && RetainsPayload(jobs[id]) }

  function Weight(job: Job): nat { if RetainsPayload(job) then job.bytes else 0 }

  ghost function ActiveBytes(jobs: Jobs): nat
    decreases |jobs|
  {
    if jobs == map[] then 0 else
      var id :| id in jobs;
      Weight(jobs[id]) + ActiveBytes(jobs - {id})
  }

  ghost predicate Full(jobs: Jobs, bytes: nat) {
    || |jobs| >= ROOM_RECEIPT_LIMIT || |ActiveIds(jobs)| >= ROOM_JOB_LIMIT
    || ActiveBytes(jobs) + bytes > ROOM_JOB_BYTES
  }

  /** `put`. */
  ghost function PutJob(room: string, jobs: Jobs, id: string, body: Body, now: int): (Jobs, Reply) {
    var parsed := NormalizeJob(room, id, body, if id in jobs then jobs[id].createdAt else now);
    if parsed.None? then (jobs, Rejected(400))
    else if id in jobs then
      if jobs[id].fingerprint == parsed.value then (jobs, Replied(200, Public(ExpireJob(jobs[id], now))))
      else (jobs, Rejected(409))
    else
      PutNew(ExpireAll(jobs, now), id, parsed.value, body.encodedBytes, now)
  }

  /** New work, once what is due to expire has expired. */
  ghost function PutNew(current: Jobs, id: string, c: Canonical, bytes: nat, now: int): (Jobs, Reply) {
    if Full(current, bytes) then (current, Rejected(429))
    else
      var job := NewJob(id, c, bytes, now);
      (current[id := job], Replied(201, Public(job)))
  }

  function Act(job: Job, action: Action, now: int): Outcome {
    match action
    case Claim(proof, hash) => ClaimJob(job, proof, now, hash)
    case Finish(proof, hash) => FinishJob(job, proof, now, hash)
    case Cancel => CancelJob(job, now)
  }

  /** `transition`. */
  function Transition(jobs: Jobs, id: string, action: Action, now: int): (Jobs, Reply) {
    if id !in jobs then (jobs, Rejected(404))
    else
      var outcome := Act(jobs[id], action, now);
      if outcome.Refused? then (jobs, Rejected(outcome.status))
      else (jobs[id := outcome.row], Replied(outcome.status, Public(outcome.row)))
  }

  function Latest(a: int, b: int): int { if a < b then b else a }

  /** A receipt's retention is over; work a receiver holds is never purged. */
  predicate Purgeable(job: Job, now: int) {
    !job.state.Accepted? && now > Latest(job.expiresAt, job.updatedAt) + RECEIPT_RETENTION_MS
  }

  function Purge(jobs: Jobs, now: int): (r: Jobs)
    ensures forall id :: id in r <==> id in jobs && !Purgeable(ExpireJob(jobs[id], now), now)
    ensures forall id :: id in r ==> r[id] == ExpireJob(jobs[id], now)
  {
    map id | id in jobs && !Purgeable(ExpireJob(jobs[id], now), now) :: ExpireJob(jobs[id], now)
  }

  // ---- byte totals ----

  lemma {:induction false} ActiveBytesWithout(jobs: Jobs, id: string)
    requires id in jobs
    ensures ActiveBytes(jobs) == Weight(jobs[id]) + ActiveBytes(jobs - {id})
    decreases |jobs|
  {
    var first :| first in jobs && ActiveBytes(jobs) == Weight(jobs[first]) + ActiveBytes(jobs - {first});
    if first != id {
      ActiveBytesWithout(jobs - {first}, id);
      ActiveBytesWithout(jobs - {id}, first);
      assert jobs - {first} - {id} == jobs - {id} - {first};
    }
  }

  lemma ActiveBytesPut(jobs: Jobs, id: string, job: Job)
    ensures ActiveBytes(jobs[id := job]) == Weight(job) + ActiveBytes(jobs - {id})
  {
    ActiveBytesWithout(jobs[id := job], id);
    assert jobs[id := job] - {id} == jobs - {id};
  }

  /** Fewer jobs, each weighing no more, weigh no more together. */
  lemma {:induction false} ActiveBytesMonotone(small: Jobs, large: Jobs)
    requires forall id :: id in small ==> id in large && Weight(small[id]) <= Weight(large[id])
    ensures ActiveBytes(small) <= ActiveBytes(large)
    decreases |large|
  {
    if large != map[] {
      var id :| id in large;
      ActiveBytesWithout(large, id);
      ActiveBytesMonotone(small - {id}, large - {id});
      if id in small {
        ActiveBytesWithout(small, id);
      } else {
        assert small - {id} == small;
      }
    }
  }

  lemma {:induction false} InactiveWeighNothing(jobs: Jobs)
    requires forall id :: id in jobs ==> !RetainsPayload(jobs[id])
    ensures ActiveBytes(jobs) == 0
    decreases |jobs|
  {
    if jobs != map[] {
      var id :| id in jobs;
      ActiveBytesWithout(jobs, id);
      InactiveWeighNothing(jobs - {id});
    }
  }

  // ---- what one operation keeps ----

  predicate Sound(jobs: Jobs) { forall id :: id in jobs ==> JobInv(jobs[id]) && jobs[id].id == id }

  ghost predicate WithinCapacity(jobs: Jobs) {
    && |jobs| <= ROOM_RECEIPT_LIMIT && |ActiveIds(jobs)| <= ROOM_JOB_LIMIT && ActiveBytes(jobs) <= ROOM_JOB_BYTES
  }

  predicate Kept(a: Job, b: Job) { a == b || Evolves(a, b) }

  /** What may happen to one id: kept or moved forward, purged after its expiry, or newly created. */
  predicate IdStep(jobs: Jobs, after: Jobs, id: string, now: int) {
    if id in jobs then
      if id in after then Kept(jobs[id], after[id])
      else !jobs[id].state.Accepted? && jobs[id].expiresAt < now
    else
      id in after ==> after[id].createdAt == now < after[id].expiresAt
  }

  ghost predicate AllSteps(jobs: Jobs, after: Jobs, now: int) { forall id :: IdStep(jobs, after, id, now) }

  /** Nothing gained: every remaining job weighs no more than before. */
  predicate NoGain(jobs: Jobs, after: Jobs) {
    forall id :: id in after ==> id in jobs && Weight(after[id]) <= Weight(jobs[id])
                                 && (RetainsPayload(after[id]) ==> RetainsPayload(jobs[id]))
  }

  lemma NoGainKeepsCapacity(jobs: Jobs, after: Jobs)
    requires NoGain(jobs, after) && WithinCapacity(jobs)
    ensures WithinCapacity(after)
  {
    ActiveBytesMonotone(after, jobs);
    CountMonotone(after.Keys, jobs.Keys);
    CountMonotone(ActiveIds(after), ActiveIds(jobs));
  }

  lemma {:induction false} CountMonotone(a: set<string>, b: set<string>)
    requires a <= b
    ensures |a| <= |b|
  {
    if a != {} {
      var x :| x in a;
      CountMonotone(a - {x}, b - {x});
    }
  }

  /** A job that stays or moves forward weighs no more than before. */
  lemma KeptWeighsNoMore(a: Job, b: Job)
    requires JobInv(a) && Kept(a, b)
    ensures Weight(b) <= Weight(a) && (RetainsPayload(b) ==> RetainsPayload(a)) && JobInv(b)
    ensures b.id == a.id && b.fingerprint == a.fingerprint
  {
  }

  lemma ExpireAllSound(jobs: Jobs, now: int)
    requires Sound(jobs)
    ensures Sound(ExpireAll(jobs, now)) && NoGain(jobs, ExpireAll(jobs, now))
    ensures AllSteps(jobs, ExpireAll(jobs, now), now)
  {
    hide JobInv, Evolves, ExpireJob, Weight;
    forall id | id in jobs
      ensures Kept(jobs[id], ExpireJob(jobs[id], now))
      ensures JobInv(ExpireJob(jobs[id], now)) && ExpireJob(jobs[id], now).id == id
      ensures Weight(ExpireJob(jobs[id], now)) <= Weight(jobs[id])
      ensures RetainsPayload(ExpireJob(jobs[id], now)) ==> RetainsPayload(jobs[id])
    {
      KeptWeighsNoMore(jobs[id], ExpireJob(jobs[id], now));
    }
  }

  lemma ExpireOneSound(jobs: Jobs, id: string, now: int)
    requires Sound(jobs)
    ensures Sound(ExpireOne(jobs, id, now)) && NoGain(jobs, ExpireOne(jobs, id, now))
    ensures AllSteps(jobs, ExpireOne(jobs, id, now), now)
  {
    hide JobInv, Evolves, ExpireJob, Weight;
    if id in jobs {
      KeptWeighsNoMore(jobs[id], ExpireJob(jobs[id], now));
    }
  }

  lemma PurgedIsOver(job: Job, now: int)
    requires JobInv(job) && Purgeable(ExpireJob(job, now), now)
    ensures !job.state.Accepted? && job.expiresAt < now
  {
  }

  /** Expiring a job first makes no difference to whether its receipt's retention is over. */
  lemma PurgedAfterRetention(jobs: Jobs, now: int)
    requires Sound(jobs)
    ensures forall id :: id in jobs ==>
              (id !in Purge(jobs, now) <==>
               !jobs[id].state.Accepted? && now > jobs[id].expiresAt + 604800000 && now > jobs[id].updatedAt + 604800000)
  {
    forall id | id in jobs ensures Purgeable(ExpireJob(jobs[id], now), now) == Purgeable(jobs[id], now) {
      PurgeableUnexpired(jobs[id], now);
    }
  }

  lemma PurgeableUnexpired(job: Job, now: int)
    requires JobInv(job)
    ensures Purgeable(ExpireJob(job, now), now) == Purgeable(job, now)
  {
  }

  lemma PurgeSound(jobs: Jobs, now: int)
    requires Sound(jobs)
    ensures Sound(Purge(jobs, now)) && NoGain(jobs, Purge(jobs, now))
    ensures AllSteps(jobs, Purge(jobs, now), now)
    ensures forall id :: id in jobs ==>
              (id !in Purge(jobs, now) <==>
               !jobs[id].state.Accepted? && now > jobs[id].expiresAt + 604800000 && now > jobs[id].updatedAt + 604800000)
  {
    PurgedAfterRetention(jobs, now);
    PurgeGainsNothing(jobs, now);
    ExpireAllSound(jobs, now);
    hide JobInv, Evolves, ExpireJob, Weight, Purgeable, IdStep, Purge, NoGain, Sound, Latest;
    forall id ensures IdStep(jobs, Purge(jobs, now), id, now) {
      PurgeStep(jobs, id, now);
    }
  }

  lemma PurgeGainsNothing(jobs: Jobs, now: int)
    requires Sound(jobs)
    ensures Sound(Purge(jobs, now)) && NoGain(jobs, Purge(jobs, now))
  {
    ExpireAllSound(jobs, now);
    hide JobInv, Evolves, ExpireJob, Weight, Purgeable;
  }

  lemma PurgeStep(jobs: Jobs, id: string, now: int)
    requires Sound(jobs) && AllSteps(jobs, ExpireAll(jobs, now), now)
    ensures IdStep(jobs, Purge(jobs, now), id, now)
  {
    assert IdStep(jobs, ExpireAll(jobs, now), id, now);
    if id in jobs && id !in Purge(jobs, now) {
      PurgedIsOver(jobs[id], now);
    }
    hide JobInv, Evolves, ExpireJob, Purgeable;
  }

  lemma TransitionSound(jobs: Jobs, id: string, action: Action, now: int)
    requires Sound(jobs)
    ensures var after := Transition(jobs, id, action, now).0;
            && Sound(after) && NoGain(jobs, after) && AllSteps(jobs, after, now)
  {
    hide JobInv, Evolves, ClaimJob, FinishJob, CancelJob, Weight;
    if id in jobs && Act(jobs[id], action, now).Done? {
      KeptWeighsNoMore(jobs[id], Act(jobs[id], action, now).row);
    }
  }

  /** Adding a new job to a room that is not full keeps it within capacity. */
  lemma AdmissionKeepsCapacity(current: Jobs, id: string, job: Job)
    requires id !in current && !Full(current, job.bytes)
    ensures WithinCapacity(current[id := job])
  {
    var after := current[id := job];
    ActiveBytesPut(current, id, job);
    assert current - {id} == current;
    assert ActiveIds(after) <= ActiveIds(current) + {id};
    CountMonotone(ActiveIds(after), ActiveIds(current) + {id});
  }

  lemma AdmissionSound(jobs: Jobs, id: string, job: Job, now: int)
    requires Sound(jobs) && id !in jobs && JobInv(job) && job.id == id && job.createdAt == now < job.expiresAt
    ensures Sound(ExpireAll(jobs, now)[id := job])
    ensures AllSteps(jobs, ExpireAll(jobs, now)[id := job], now)
  {
    hide JobInv, Evolves, ExpireJob, Weight;
    var current := ExpireAll(jobs, now);
    ExpireAllSound(jobs, now);
    var after := current[id := job];
    forall other ensures IdStep(jobs, after, other, now) {
      assert IdStep(jobs, current, other, now);
    }
  }

  lemma SameStoreSound(jobs: Jobs, now: int)
    requires Sound(jobs)
    ensures NoGain(jobs, jobs) && AllSteps(jobs, jobs, now)
  {
  }

  /** Only `put` adds work, and only within the room's capacity; a 429 changes nothing but lazy expiry. */
  lemma PutSound(room: string, jobs: Jobs, id: string, body: Body, now: int)
    requires Sound(jobs)
    ensures var (after, reply) := PutJob(room, jobs, id, body, now);
            && Sound(after) && AllSteps(jobs, after, now)
            && (WithinCapacity(jobs) ==> WithinCapacity(after))
            && (reply.status == 429 ==> after == ExpireAll(jobs, now))
            && (reply.status != 201 ==> NoGain(jobs, after))
  {
    hide JobInv, IdStep, AllSteps, NoGain, WithinCapacity, NormalizeJob, ExpireJob;
    var (after, reply) := PutJob(room, jobs, id, body, now);
    if reply.status == 201 {
      AdmissionSound(jobs, id, after[id], now);
      AdmissionKeepsCapacity(ExpireAll(jobs, now), id, after[id]);
    } else if reply.status == 429 {
      ExpireAllSound(jobs, now);
      if WithinCapacity(jobs) {
        NoGainKeepsCapacity(jobs, after);
      }
    } else {
      SameStoreSound(jobs, now);
    }
  }

  // ---- runs ----

  datatype What =
    | PutRequest(id: string, body: Body)
    | ActRequest(id: string, action: Action)
    | GetRequest(id: string, metadataOnly: bool)
    | ScanRequest
    | Maintenance

  datatype Event = Event(now: int, what: What)

  /** Reading one job expires every queued job on Node, and only that job on the Worker. */
  datatype Backend = Node | Worker

  /** What the HTTP layer echoes of a changed job: never ciphertext. */
  function Echoed(reply: Reply): Reply {
    if reply.Replied? then reply.(job := WithoutCiphertext(reply.job)) else reply
  }

  function WithoutCiphertext(job: PublicJob): PublicJob { job.(envelope := Routing(job.envelope)) }
  function WithoutBox(job: PublicJob): PublicJob { job.(envelope := job.envelope.(box := None)) }

  /** What a reply says of a job read from a record whose box is kept apart. */
  function FromRecord(reply: Reply): Reply {
    if reply.Replied? then Replied(reply.status, WithoutBox(reply.job)) else reply
  }

  /** The status of an error nobody handles. */
  const UNHANDLED := 500

  /** This read is the one that finds the job expired. */
  predicate ExpiresNow(job: Job, now: int) { job.state.Queued? && job.expiresAt <= now }

  /**
   * The reply to a read. The Worker's metadata keeps the nonce; and where its full read finds a
   * queued job expired, it deletes the chunks first and then fails to read them.
   */
  function ReadReply(backend: Backend, jobs: Jobs, id: string, metadataOnly: bool, now: int): Reply {
    if id !in jobs then Rejected(404)
    else
      var job := Public(ExpireJob(jobs[id], now));
      if backend.Node? then Replied(200, if metadataOnly then WithoutCiphertext(job) else job)
      else if metadataOnly then Replied(200, WithoutBox(job))
      else if ExpiresNow(jobs[id], now) then Rejected(UNHANDLED)
      else Replied(200, job)
  }

  ghost function Step(backend: Backend, room: string, jobs: Jobs, event: Event): (Jobs, Reply) {
    match event.what
    case PutRequest(id, body) =>
      var (after, reply) := PutJob(room, jobs, id, body, event.now);
      (after, Echoed(reply))
    case ActRequest(id, action) =>
      var (after, reply) := Transition(jobs, id, action, event.now);
      (after, Echoed(reply))
    case GetRequest(id, metadataOnly) =>
      (if backend.Node? then ExpireAll(jobs, event.now) else ExpireOne(jobs, id, event.now),
       ReadReply(backend, jobs, id, metadataOnly, event.now))
    case ScanRequest => (ExpireAll(jobs, event.now), Rejected(0))
    case Maintenance => (Purge(jobs, event.now), Rejected(0))
  }

  /** Every operation but an admitting `put` gains nothing. */
  lemma QuietStepSound(backend: Backend, room: string, jobs: Jobs, event: Event)
    requires Sound(jobs) && !event.what.PutRequest?
    ensures var after := Step(backend, room, jobs, event).0;
            Sound(after) && NoGain(jobs, after) && AllSteps(jobs, after, event.now)
  {
    match event.what {
      case ActRequest(id, action) => TransitionSound(jobs, id, action, event.now);
      case GetRequest(id, _) =>
        if backend.Node? {
          ExpireAllSound(jobs, event.now);
        } else {
          ExpireOneSound(jobs, id, event.now);
        }
      case ScanRequest => ExpireAllSound(jobs, event.now);
      case Maintenance => PurgeSound(jobs, event.now);
    }
  }

  lemma StepSound(backend: Backend, room: string, jobs: Jobs, event: Event)
    requires Sound(jobs)
    ensures var after := Step(backend, room, jobs, event).0;
            && Sound(after) && (WithinCapacity(jobs) ==> WithinCapacity(after))
            && AllSteps(jobs, after, event.now)
  {
    if event.what.PutRequest? {
      PutSound(room, jobs, event.what.id, event.what.body, event.now);
    } else {
      QuietStepSound(backend, room, jobs, event);
      if WithinCapacity(jobs) {
        NoGainKeepsCapacity(jobs, Step(backend, room, jobs, event).0);
      }
    }
  }

  predicate InOrder(run: seq<Event>) { forall i, j :: 0 <= i < j < |run| ==> run[i].now <= run[j].now }

  ghost predicate StepsAt(backend: Backend, room: string, run: seq<Event>, h: seq<Jobs>, k: nat)
    requires k < |run| && |h| == |run| + 1
  {
    h[k + 1] == Step(backend, room, h[k], run[k]).0
  }

  /** The stores a run passes through, from the empty one on. */
  ghost function Stores(backend: Backend, room: string, run: seq<Event>): (h: seq<Jobs>)
    ensures |h| == |run| + 1 && h[0] == map[]
    ensures forall k :: 0 <= k < |run| ==> StepsAt(backend, room, run, h, k)
  {
    if run == [] then [map[]] else
      var n := |run| - 1;
      var h := Stores(backend, room, run[..n]);
      var r := h + [Step(backend, room, h[n], run[n]).0];
      hide Step;
      assert forall k :: 0 <= k < n ==> StepsAt(backend, room, run, r, k) by {
        forall k | 0 <= k < n ensures StepsAt(backend, room, run, r, k) {
          assert StepsAt(backend, room, run[..n], h, k);
        }
      }
      r
  }

  /** Every reachable store is sound and within capacity. */
  lemma {:induction false} ReachableStore(backend: Backend, room: string, run: seq<Event>, k: nat)
    requires k <= |run|
    ensures Sound(Stores(backend, room, run)[k]) && WithinCapacity(Stores(backend, room, run)[k])
  {
    hide Step, JobInv;
    if k > 0 {
      ReachableStore(backend, room, run, k - 1);
      assert StepsAt(backend, room, run, Stores(backend, room, run), k - 1);
      StepSound(backend, room, Stores(backend, room, run)[k - 1], run[k - 1]);
    } else {
      assert ActiveIds(map[]) == {};
    }
  }

  lemma StoreStep(backend: Backend, room: string, run: seq<Event>, k: nat)
    requires k < |run|
    ensures var h := Stores(backend, room, run);
            && Sound(h[k]) && Sound(h[k + 1]) && AllSteps(h[k], h[k + 1], run[k].now)
  {
    ReachableStore(backend, room, run, k);
    assert StepsAt(backend, room, run, Stores(backend, room, run), k);
    StepSound(backend, room, Stores(backend, room, run)[k], run[k]);
  }

  // ---- lineage: what a job becomes ----

  /** Zero or more legal moves. */
  predicate Reaches(a: State, b: State) {
    || a == b || Forward(a, b)
    || (a.Queued? && (b.Completed? || b.Failed?))
    || (a.Accepted? && b.Cancelled?)
  }

  /** The same work, no earlier in its life, with its claim unchanged once made. */
  predicate Descends(a: Job, b: Job) {
    && SameIdentity(a, b) && Reaches(a.state, b.state) && (a.state == b.state ==> a == b)
    && (a.claimId.Some? ==> b.claimId == a.claimId)
    && (a.state.Failed? ==> b.resultCode == a.resultCode && b.resultEnvelope == a.resultEnvelope)
  }

  predicate HoldsWork(jobs: Jobs, id: string, c: Canonical) { id in jobs && jobs[id].fingerprint == c }

  /** Either the job's descendant is stored, or its work is gone for good because its expiry has passed. */
  predicate Lineage(origin: Job, id: string, jobs: Jobs, now: int) {
    if HoldsWork(jobs, id, origin.fingerprint) then Descends(origin, jobs[id])
    else origin.expiresAt < now
  }

  lemma LineageStep(origin: Job, id: string, jobs: Jobs, after: Jobs, before: int, now: int)
    requires JobInv(origin) && Sound(jobs) && Sound(after) && before <= now
    requires Lineage(origin, id, jobs, before) && IdStep(jobs, after, id, now)
    ensures Lineage(origin, id, after, now)
  {
    if id in jobs && id in after {
      KeptWeighsNoMore(jobs[id], after[id]);
    }
  }

  lemma LineageBase(jobs: Jobs, after: Jobs, id: string, now: int)
    requires Sound(jobs) && id in jobs && IdStep(jobs, after, id, now)
    ensures Lineage(jobs[id], id, after, now)
  {
  }

  /** Over any stretch of a run a stored job only descends, until it is purged, never to return. */
  lemma {:induction false} JobsDescend(backend: Backend, room: string, run: seq<Event>, i: nat, j: nat, id: string)
    requires InOrder(run) && i < j <= |run|
    requires id in Stores(backend, room, run)[i]
    ensures Lineage(Stores(backend, room, run)[i][id], id, Stores(backend, room, run)[j], run[j - 1].now)
    decreases j
  {
    hide Step, Sound, IdStep, Lineage;
    var h := Stores(backend, room, run);
    StoreStep(backend, room, run, i);
    StoreStep(backend, room, run, j - 1);
    assert IdStep(h[j - 1], h[j], id, run[j - 1].now);
    if i + 1 < j {
      JobsDescend(backend, room, run, i, j - 1, id);
      LineageStep(h[i][id], id, h[j - 1], h[j], run[j - 2].now, run[j - 1].now);
    } else {
      LineageBase(h[i], h[j], id, run[i].now);
    }
  }

  // ---- at most once ----

  /** At step `k` the store answered 201: it took on this work under this id. */
  ghost predicate CreatedAt(backend: Backend, room: string, run: seq<Event>, k: nat, id: string, c: Canonical)
    requires k < |run|
  {
    && run[k].what.PutRequest? && run[k].what.id == id
    && NormalizeJob(room, id, run[k].what.body, run[k].now) == Some(c)
    && Step(backend, room, Stores(backend, room, run)[k], run[k]).1.status == 201
  }

  /** At step `k` a receiver was granted the job that carries this work. */
  ghost predicate GrantedAt(backend: Backend, room: string, run: seq<Event>, k: nat, id: string, c: Canonical, claimId: string)
    requires k < |run|
  {
    && run[k].what.ActRequest? && run[k].what.id == id && run[k].what.action.Claim?
    && run[k].what.action.proof.claimId == Some(claimId)
    && HoldsWork(Stores(backend, room, run)[k], id, c)
    && Step(backend, room, Stores(backend, room, run)[k], run[k]).1.status == 200
  }

  /** An admitted request leaves its work stored, was not stored before, and had not expired. */
  lemma CreationEffect(room: string, jobs: Jobs, id: string, body: Body, now: int)
    requires PutJob(room, jobs, id, body, now).1.status == 201
    ensures var c := NormalizeJob(room, id, body, now);
            && c.Some? && id !in jobs && now < c.value.expiresAt
            && var after := PutJob(room, jobs, id, body, now).0;
               id in after && after[id] == NewJob(id, c.value, body.encodedBytes, now)
  {
  }

  /** The same work is taken on at most once under an id, even after its receipt was purged. */
  lemma CreatedOnce(backend: Backend, room: string, run: seq<Event>, i: nat, j: nat, id: string, c: Canonical)
    requires InOrder(run) && i < j < |run|
    requires CreatedAt(backend, room, run, i, id, c)
    ensures !CreatedAt(backend, room, run, j, id, c)
  {
    hide PutJob, JobInv, NormalizeJob, Descends;
    var h := Stores(backend, room, run);
    assert StepsAt(backend, room, run, h, i);
    CreationEffect(room, h[i], id, run[i].what.body, run[i].now);
    if i + 1 < j {
      JobsDescend(backend, room, run, i + 1, j, id);
    }
    if CreatedAt(backend, room, run, j, id, c) {
      CreationEffect(room, h[j], id, run[j].what.body, run[j].now);
    }
  }

  /** A granted claim is recorded, and agrees with any claim recorded before. */
  lemma GrantEffect(jobs: Jobs, id: string, proof: Proof, hash: string, now: int)
    requires id in jobs && JobInv(jobs[id]) && Transition(jobs, id, Claim(proof, hash), now).1.status == 200
    ensures var after := Transition(jobs, id, Claim(proof, hash), now).0;
            && id in after && after[id].fingerprint == jobs[id].fingerprint && after[id].claimId == proof.claimId
            && (jobs[id].claimId.Some? ==> jobs[id].claimId == proof.claimId)
  {
  }

  /** The same work is granted to at most one receiver attempt. */
  lemma GrantedToOneReceiver(backend: Backend, room: string, run: seq<Event>, i: nat, j: nat, id: string, c: Canonical,
                             first: string, second: string)
    requires InOrder(run) && i < j < |run|
    requires GrantedAt(backend, room, run, i, id, c, first) && GrantedAt(backend, room, run, j, id, c, second)
    ensures first == second
  {
    hide JobInv, IdStep, AllSteps, Act, PutJob, Transition, ExpireAll, ExpireOne, Purge;
    var h := Stores(backend, room, run);
    StoreStep(backend, room, run, i);
    StoreStep(backend, room, run, j);
    assert StepsAt(backend, room, run, h, i);
    GrantEffect(h[i], id, run[i].what.action.proof, run[i].what.action.hash, run[i].now);
    GrantEffect(h[j], id, run[j].what.action.proof, run[j].what.action.hash, run[j].now);
    if i + 1 < j {
      JobsDescend(backend, room, run, i + 1, j, id);
    }
  }

  /** While the receipt is kept, repeating the very same request is answered 200 and changes nothing. */
  lemma RetryIsIdempotent(backend: Backend, room: string, run: seq<Event>, i: nat, j: nat, c: Canonical)
    requires InOrder(run) && i < j < |run| && run[i].what.PutRequest? && run[j].what == run[i].what
    requires CreatedAt(backend, room, run, i, run[i].what.id, c)
    requires HoldsWork(Stores(backend, room, run)[j], run[i].what.id, c)
    ensures Step(backend, room, Stores(backend, room, run)[j], run[j]).1.status == 200
    ensures Stores(backend, room, run)[j + 1] == Stores(backend, room, run)[j]
  {
    hide ExpireJob, JobInv, NormalizeJob, Full;
    var h, id := Stores(backend, room, run), run[i].what.id;
    assert StepsAt(backend, room, run, h, i);
    assert StepsAt(backend, room, run, h, j);
    CreationEffect(room, h[i], id, run[i].what.body, run[i].now);
    if i + 1 < j {
      JobsDescend(backend, room, run, i + 1, j, id);
    }
  }

  // ---- the two backends ----

  lemma ExpireTwice(job: Job, before: int, now: int)
    requires before <= now
    ensures ExpireJob(ExpireJob(job, before), now) == ExpireJob(job, now)
  {
  }

  /** The stores differ at most in which expired jobs have been marked yet. */
  predicate SameUpToExpiry(a: Jobs, b: Jobs, now: int) { ExpireAll(a, now) == ExpireAll(b, now) }

  lemma SameAtStart(now: int)
    ensures SameUpToExpiry(map[], map[], now)
  {
  }

  lemma SameLater(a: Jobs, b: Jobs, before: int, now: int)
    requires SameUpToExpiry(a, b, before) && before <= now
    ensures SameUpToExpiry(a, b, now)
    ensures a.Keys == b.Keys
    ensures forall id :: id in a ==> ExpireJob(a[id], now) == ExpireJob(b[id], now)
  {
    assert ExpireAll(a, before).Keys == ExpireAll(b, before).Keys;
    forall id | id in a ensures ExpireJob(a[id], now) == ExpireJob(b[id], now) {
      ExpireTwice(a[id], before, now);
      ExpireTwice(b[id], before, now);
      assert ExpireAll(a, before)[id] == ExpireAll(b, before)[id];
    }
  }

  /** Marking an expired job first makes no difference to a transition's verdict or result. */
  lemma ActAfterExpiry(job: Job, action: Action, now: int)
    requires JobInv(job)
    ensures Act(ExpireJob(job, now), action, now) == Act(job, action, now)
  {
  }

  lemma AgreeOnJob(a: Jobs, b: Jobs, id: string, now: int)
    requires Sound(a) && Sound(b) && id in a && id in b && ExpireJob(a[id], now) == ExpireJob(b[id], now)
    ensures a[id].createdAt == b[id].createdAt && a[id].fingerprint == b[id].fingerprint
  {
  }

  lemma AgreeOnAct(a: Jobs, b: Jobs, id: string, action: Action, now: int)
    requires Sound(a) && Sound(b) && id in a && id in b && ExpireJob(a[id], now) == ExpireJob(b[id], now)
    ensures Act(a[id], action, now) == Act(b[id], action, now)
  {
    hide Act, JobInv;
    ActAfterExpiry(a[id], action, now);
    ActAfterExpiry(b[id], action, now);
  }

  lemma ExpireSettles(jobs: Jobs, now: int)
    ensures ExpireAll(ExpireAll(jobs, now), now) == ExpireAll(jobs, now)
  {
  }

  lemma ExpireOneSettles(jobs: Jobs, id: string, now: int)
    ensures ExpireAll(ExpireOne(jobs, id, now), now) == ExpireAll(jobs, now)
  {
  }

  lemma SameAsItself(jobs: Jobs, now: int)
    ensures SameUpToExpiry(jobs, jobs, now)
  {
  }

  /** What both stores have in common under one id. */
  lemma SameUnder(a: Jobs, b: Jobs, id: string, now: int)
    requires SameUpToExpiry(a, b, now)
    ensures id in a <==> id in b
    ensures id in a ==> ExpireJob(a[id], now) == ExpireJob(b[id], now)
    ensures ExpireAll(a, now) == ExpireAll(b, now)
  {
    hide ExpireAll, ExpireJob;
    SameLater(a, b, now, now);
  }

  lemma KnownPutsAgree(room: string, a: Jobs, b: Jobs, id: string, body: Body, now: int)
    requires SameUpToExpiry(a, b, now) && id in a && id in b
    requires a[id].createdAt == b[id].createdAt && a[id].fingerprint == b[id].fingerprint
    requires ExpireJob(a[id], now) == ExpireJob(b[id], now)
    ensures PutJob(room, a, id, body, now).1 == PutJob(room, b, id, body, now).1
    ensures SameUpToExpiry(PutJob(room, a, id, body, now).0, PutJob(room, b, id, body, now).0, now)
  {
    hide NormalizeJob, ExpireJob, PutNew, Public, SameUpToExpiry, ExpireAll;
  }

  lemma NewPutsAgree(room: string, a: Jobs, b: Jobs, id: string, body: Body, now: int)
    requires SameUpToExpiry(a, b, now) && id !in a && id !in b && ExpireAll(a, now) == ExpireAll(b, now)
    ensures PutJob(room, a, id, body, now).1 == PutJob(room, b, id, body, now).1
    ensures SameUpToExpiry(PutJob(room, a, id, body, now).0, PutJob(room, b, id, body, now).0, now)
  {
    hide NormalizeJob, PutNew, SameUpToExpiry, ExpireAll;
    SameAsItself(PutJob(room, a, id, body, now).0, now);
  }

  lemma PutsAgree(room: string, a: Jobs, b: Jobs, id: string, body: Body, now: int)
    requires Sound(a) && Sound(b) && SameUpToExpiry(a, b, now)
    ensures PutJob(room, a, id, body, now).1 == PutJob(room, b, id, body, now).1
    ensures SameUpToExpiry(PutJob(room, a, id, body, now).0, PutJob(room, b, id, body, now).0, now)
  {
    hide PutJob, SameUpToExpiry, Sound, ExpireJob, ExpireAll;
    SameUnder(a, b, id, now);
    if id in a {
      AgreeOnJob(a, b, id, now);
      KnownPutsAgree(room, a, b, id, body, now);
    } else {
      NewPutsAgree(room, a, b, id, body, now);
    }
  }

  lemma ExpireAllUpdate(jobs: Jobs, id: string, row: Job, now: int)
    ensures ExpireAll(jobs[id := row], now) == ExpireAll(jobs, now)[id := ExpireJob(row, now)]
  {
  }

  lemma UpdatesAgree(a: Jobs, b: Jobs, id: string, row: Job, now: int)
    requires SameUpToExpiry(a, b, now)
    ensures SameUpToExpiry(a[id := row], b[id := row], now)
  {
    ExpireAllUpdate(a, id, row, now);
    ExpireAllUpdate(b, id, row, now);
    hide ExpireAll, ExpireJob;
  }

  lemma KnownTransitionsAgree(a: Jobs, b: Jobs, id: string, action: Action, now: int)
    requires SameUpToExpiry(a, b, now) && id in a && id in b && Act(a[id], action, now) == Act(b[id], action, now)
    ensures Transition(a, id, action, now).1 == Transition(b, id, action, now).1
    ensures SameUpToExpiry(Transition(a, id, action, now).0, Transition(b, id, action, now).0, now)
  {
    hide Act, ExpireAll, Public, SameUpToExpiry;
    if Act(a[id], action, now).Done? {
      UpdatesAgree(a, b, id, Act(a[id], action, now).row, now);
    }
  }

  lemma TransitionsAgree(a: Jobs, b: Jobs, id: string, action: Action, now: int)
    requires Sound(a) && Sound(b) && SameUpToExpiry(a, b, now)
    ensures Transition(a, id, action, now).1 == Transition(b, id, action, now).1
    ensures SameUpToExpiry(Transition(a, id, action, now).0, Transition(b, id, action, now).0, now)
  {
    hide Act, Sound, ExpireAll, ExpireJob, SameUpToExpiry;
    SameUnder(a, b, id, now);
    if id in a {
      hide Transition;
      AgreeOnAct(a, b, id, action, now);
      KnownTransitionsAgree(a, b, id, action, now);
    }
  }

  /** Where the two backends' replies differ: see `ReadReply`. */
  predicate ReadsDiffer(jobs: Jobs, event: Event) {
    && event.what.GetRequest? && event.what.id in jobs
    && var job := jobs[event.what.id];
       if event.what.metadataOnly then ExpireJob(job, event.now).envelope.nonce.Some? else ExpiresNow(job, event.now)
  }

  lemma GetsAgree(a: Jobs, b: Jobs, id: string, metadataOnly: bool, now: int)
    requires SameUpToExpiry(a, b, now)
    ensures SameUpToExpiry(ExpireAll(a, now), ExpireOne(b, id, now), now)
    ensures ReadReply(Node, a, id, metadataOnly, now) == ReadReply(Worker, b, id, metadataOnly, now)
            <==> !ReadsDiffer(b, Event(now, GetRequest(id, metadataOnly)))
  {
    SameLater(a, b, now, now);
    ExpireSettles(a, now);
    ExpireOneSettles(b, id, now);
  }

  lemma ScansAgree(a: Jobs, b: Jobs, now: int)
    requires SameUpToExpiry(a, b, now)
    ensures SameUpToExpiry(ExpireAll(a, now), ExpireAll(b, now), now)
  {
  }

  lemma PurgesAgree(a: Jobs, b: Jobs, now: int)
    requires SameUpToExpiry(a, b, now)
    ensures SameUpToExpiry(Purge(a, now), Purge(b, now), now)
  {
  }

  /** One event: both backends stay the same up to expiry, and reply the same but for those reads. */
  lemma BackendsAgreeStep(room: string, a: Jobs, b: Jobs, before: int, event: Event)
    requires Sound(a) && Sound(b) && SameUpToExpiry(a, b, before) && before <= event.now
    ensures Step(Node, room, a, event).1 == Step(Worker, room, b, event).1 <==> !ReadsDiffer(b, event)
    ensures SameUpToExpiry(Step(Node, room, a, event).0, Step(Worker, room, b, event).0, event.now)
  {
    hide Sound, SameUpToExpiry, PutJob, Transition, ExpireAll, ExpireOne, Purge, ExpireJob, ReadReply, Echoed;
    SameLater(a, b, before, event.now);
    match event.what {
      case PutRequest(id, body) => PutsAgree(room, a, b, id, body, event.now);
      case ActRequest(id, action) => TransitionsAgree(a, b, id, action, event.now);
      case GetRequest(id, metadataOnly) => GetsAgree(a, b, id, metadataOnly, event.now);
      case ScanRequest => ScansAgree(a, b, event.now);
      case Maintenance => PurgesAgree(a, b, event.now);
    }
  }

  /**
   * Over any run the two backends hold the same jobs, whatever each has marked expired so far, and
   * give the same replies except to a metadata read of a job that still has its nonce and to the
   * full read by which the Worker first finds a queued job expired.
   */
  lemma {:induction false} BackendsAgree(room: string, run: seq<Event>, k: nat)
    requires InOrder(run) && k < |run|
    ensures var node, worker := Stores(Node, room, run), Stores(Worker, room, run);
            && (Step(Node, room, node[k], run[k]).1 == Step(Worker, room, worker[k], run[k]).1
                <==> !ReadsDiffer(worker[k], run[k]))
            && SameUpToExpiry(node[k + 1], worker[k + 1], run[k].now)
  {
    hide Sound, Step, SameUpToExpiry, ReadsDiffer;
    var node, worker := Stores(Node, room, run), Stores(Worker, room, run);
    ReachableStore(Node, room, run, k);
    ReachableStore(Worker, room, run, k);
    assert StepsAt(Node, room, run, node, k);
    assert StepsAt(Worker, room, run, worker, k);
    if k > 0 {
      BackendsAgree(room, run, k - 1);
      BackendsAgreeStep(room, node[k], worker[k], run[k - 1].now, run[k]);
    } else {
      SameAtStart(run[k].now);
      BackendsAgreeStep(room, node[k], worker[k], run[k].now, run[k]);
    }
  }

  // ---- a store that serves a whole run ----

  ghost predicate ReplyAt(backend: Backend, room: string, run: seq<Event>, replies: seq<Reply>, k: nat)
    requires k < |run| && k < |replies|
  {
    replies[k] == Step(backend, room, Stores(backend, room, run)[k], run[k]).1
  }

  /** These are the replies of the abstract store to the run. */
  ghost predicate Answers(backend: Backend, room: string, run: seq<Event>, replies: seq<Reply>) {
    |replies| == |run| && forall k :: 0 <= k < |run| ==> ReplyAt(backend, room, run, replies, k)
  }

  // ---- the reads that differ, by example ----

  function Letters(c: char, n: nat): (s: string)
    ensures |s| == n && forall i :: 0 <= i < n ==> s[i] == c
  {
    seq(n, _ => c)
  }

  function SampleRoom(): string { Letters('a', 16) }
  function SampleId(): string { Letters('j', 8) }

  /** Work that is due at once and expires at `expiresAt`. */
  function SampleBody(expiresAt: int): Body {
    var digest := Letters('a', 64);
    RawBody(true, Some(0), Some(expiresAt), Some(digest),
            Some(Envelope(true, 1, SampleRoom(), "machine", "machine", "m", Some(SampleId()), Some(expiresAt),
                          Some(Letters('A', 32)), Some(Letters('A', 24)), Some(digest), None, None, None, None, None, {})),
            None, None, 1000)
  }

  lemma SampleAccepted(expiresAt: int)
    requires 0 < expiresAt <= JOB_TTL_MS
    ensures NormalizeJob(SampleRoom(), SampleId(), SampleBody(expiresAt), 0).Some?
  {
    var e := SampleBody(expiresAt).envelope.value;
    assert ValidNonce(e.nonce.value) && ValidBox(e.box.value) && ValidDigest(e.recipientKeyId.value);
    assert ValidRoom(SampleRoom()) && ValidJobId(SampleId());
  }

  /** A first request for acceptable work is always admitted into an empty room. */
  lemma EmptyRoomAdmits(room: string, id: string, body: Body, now: int)
    requires NormalizeJob(room, id, body, now).Some?
    ensures var (after, reply) := PutJob(room, map[], id, body, now);
            reply.status == 201 && id in after && after[id] == NewJob(id, NormalizeJob(room, id, body, now).value, body.encodedBytes, now)
  {
    assert ActiveIds(ExpireAll(map[], now)) == {};
    assert ExpireAll(map[], now) == map[];
    assert JobInv(NewJob(id, NormalizeJob(room, id, body, now).value, body.encodedBytes, now));
  }

  /**
   * Whatever work is stored in an empty room, its first full read at its expiry fails on the Worker
   * and is answered on Node.
   */
  lemma FirstReadAtExpiry(room: string, id: string, body: Body, now: int)
    requires NormalizeJob(room, id, body, now).Some?
    ensures var at := NormalizeJob(room, id, body, now).value.expiresAt;
            var run := [Event(now, PutRequest(id, body)), Event(at, GetRequest(id, false))];
            && InOrder(run)
            && ReadsDiffer(Stores(Worker, room, run)[1], run[1])
            && Step(Worker, room, Stores(Worker, room, run)[1], run[1]).1 == Rejected(UNHANDLED)
            && Step(Node, room, Stores(Node, room, run)[1], run[1]).1.status == 200
  {
    var c := NormalizeJob(room, id, body, now).value;
    var run := [Event(now, PutRequest(id, body)), Event(c.expiresAt, GetRequest(id, false))];
    EmptyRoomAdmits(room, id, body, now);
    hide NormalizeJob, PutJob, Echoed, JobInv;
    assert StepsAt(Worker, room, run, Stores(Worker, room, run), 0);
    assert StepsAt(Node, room, run, Stores(Node, room, run), 0);
    assert Stores(Worker, room, run)[1] == PutJob(room, map[], id, body, now).0;
    assert Stores(Node, room, run)[1] == PutJob(room, map[], id, body, now).0;
  }

  /** There is such work, so the backends do differ on a reachable store. */
  lemma BackendsDifferSomewhere()
    ensures exists room: string, run: seq<Event> :: InOrder(run) && |run| == 2 && ReadsDiffer(Stores(Worker, room, run)[1], run[1])
  {
    SampleAccepted(1000);
    FirstReadAtExpiry(SampleRoom(), SampleId(), SampleBody(1000), 0);
  }
}
