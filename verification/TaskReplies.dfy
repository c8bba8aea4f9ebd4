/** What the replies of either backend tell a client, in terms of the requests made before. */
module TaskReplies {
  import opened Lists
  import opened Wire
  import opened TaskPolicy
  import opened TaskJobs
  import TaskNode

  /** The request asks for this job's reply. */
  predicate Asks(what: What, id: string) {
    match what
    case PutRequest(other, _) => other == id
    case ActRequest(other, _) => other == id
    case GetRequest(other, _) => other == id
    case _ => false
  }

  ghost function ReplyTo(backend: Backend, room: string, run: seq<Event>, k: nat): Reply
    requires k < |run|
  {
    Step(backend, room, Stores(backend, room, run)[k], run[k]).1
  }

  /** How much of the envelope a reply carries: all of it only in answer to a full read. */
  predicate Discloses(backend: Backend, what: What, view: PublicJob, job: Job) {
    match what
    case GetRequest(_, metadataOnly) =>
      if !metadataOnly then view.envelope == job.envelope
      else view.envelope.box.None? && view.envelope.nonce == (if backend.Node? then None else job.envelope.nonce)
    case _ => view.envelope.box.None? && view.envelope.nonce.None?
  }

  /** What a reply with a job says: it shows the job as stored afterwards, its expiry observed. */
  ghost predicate Tells(backend: Backend, jobs: Jobs, after: Jobs, reply: Reply, event: Event, id: string)
    requires reply.Replied?
  {
    && reply.status == (if id in jobs then 200 else 201)
    && id in after
    && var job := ExpireJob(after[id], event.now);
       && (id in jobs ==> Kept(jobs[id], job))
       && Shows(reply.job, job) && Discloses(backend, event.what, reply.job, job)
  }

  lemma PutTells(backend: Backend, room: string, jobs: Jobs, event: Event)
    requires Sound(jobs) && event.what.PutRequest? && Step(backend, room, jobs, event).1.Replied?
    ensures var (after, reply) := Step(backend, room, jobs, event);
            Tells(backend, jobs, after, reply, event, event.what.id)
  {
    hide JobInv, NormalizeJob, Evolves, Full;
  }

  lemma ActTells(backend: Backend, room: string, jobs: Jobs, event: Event)
    requires Sound(jobs) && event.what.ActRequest? && Step(backend, room, jobs, event).1.Replied?
    ensures var (after, reply) := Step(backend, room, jobs, event);
            Tells(backend, jobs, after, reply, event, event.what.id)
  {
    hide JobInv, Evolves, ClaimJob, FinishJob, CancelJob;
  }

  lemma GetTells(backend: Backend, room: string, jobs: Jobs, event: Event)
    requires Sound(jobs) && event.what.GetRequest? && Step(backend, room, jobs, event).1.Replied?
    ensures var (after, reply) := Step(backend, room, jobs, event);
            Tells(backend, jobs, after, reply, event, event.what.id)
  {
    hide JobInv, Evolves;
  }

  lemma ReplyTells(backend: Backend, room: string, jobs: Jobs, event: Event, id: string)
    requires Sound(jobs) && Asks(event.what, id) && Step(backend, room, jobs, event).1.Replied?
    ensures var (after, reply) := Step(backend, room, jobs, event);
            Tells(backend, jobs, after, reply, event, id)
  {
    match event.what {
      case PutRequest(_, _) => PutTells(backend, room, jobs, event);
      case ActRequest(_, _) => ActTells(backend, room, jobs, event);
      case GetRequest(_, _) => GetTells(backend, room, jobs, event);
    }
  }

  // ---- over whole runs ----

  /** The job a later request finds is the one stored before, or what became of it. */
  lemma LaterJob(backend: Backend, room: string, run: seq<Event>, i: nat, j: nat, id: string)
    requires InOrder(run) && i <= j <= |run|
    requires id in Stores(backend, room, run)[i]
    requires HoldsWork(Stores(backend, room, run)[j], id, Stores(backend, room, run)[i][id].fingerprint)
    ensures Descends(Stores(backend, room, run)[i][id], Stores(backend, room, run)[j][id])
    ensures Sound(Stores(backend, room, run)[j])
  {
    hide JobInv, Stores, Sound, Step, StepsAt;
    ReachableStore(backend, room, run, j);
    if i < j {
      JobsDescend(backend, room, run, i, j, id);
    }
  }

  /** What a request finds of a job, and what its reply shows of it. */
  lemma LaterReply(backend: Backend, room: string, run: seq<Event>, i: nat, j: nat, id: string) returns (job: Job)
    requires InOrder(run) && i <= j < |run|
    requires id in Stores(backend, room, run)[i]
    requires Asks(run[j].what, id) && ReplyTo(backend, room, run, j).Replied?
    requires HoldsWork(Stores(backend, room, run)[j], id, Stores(backend, room, run)[i][id].fingerprint)
    ensures ReplyTo(backend, room, run, j).status == 200
    ensures Descends(Stores(backend, room, run)[i][id], job) && JobInv(job)
    ensures Shows(ReplyTo(backend, room, run, j).job, job)
    ensures Discloses(backend, run[j].what, ReplyTo(backend, room, run, j).job, job)
  {
    var h := Stores(backend, room, run);
    LaterJob(backend, room, run, i, j, id);
    ReplyTells(backend, room, h[j], run[j], id);
    hide JobInv, Stores, Sound, Shows, Discloses, ExpireJob;
    job := ExpireJob(Step(backend, room, h[j], run[j]).0[id], run[j].now);
    hide Step;
    KeptDescends(h[i][id], h[j][id], job);
  }

  lemma KeptDescends(origin: Job, a: Job, b: Job)
    requires Descends(origin, a) && JobInv(a) && Kept(a, b)
    ensures Descends(origin, b) && JobInv(b)
  {
    hide JobInv;
  }

  /**
   * Once a report on an accepted job is answered 200, every later reply about that work carries what
   * was reported: the final state and its time, the result code and the result envelope. Only a failed
   * job may be cancelled afterwards, and keeps its result.
   */
  lemma ReportLasts(backend: Backend, room: string, run: seq<Event>, i: nat, j: nat, id: string, c: Canonical, proof: Proof, hash: string)
    requires InOrder(run) && i < j < |run|
    requires run[i].what == ActRequest(id, Finish(proof, hash)) && ReplyTo(backend, room, run, i).Replied?
    requires HoldsWork(Stores(backend, room, run)[i], id, c) && Stores(backend, room, run)[i][id].state == Accepted
    requires Asks(run[j].what, id) && ReplyTo(backend, room, run, j).Replied?
    requires HoldsWork(Stores(backend, room, run)[j], id, c)
    ensures var view := ReplyTo(backend, room, run, j).job;
            && view.id == id && view.resultCode == proof.resultCode && view.resultEnvelope == proof.resultEnvelope
            && (|| (view.state == (if proof.state == "completed" then Completed else Failed) && view.updatedAt == run[i].now)
                || (proof.state == "failed" && view.state == Cancelled))
  {
    hide JobInv, Stores, Step, Shows, Discloses, ReplyTo, Descends, Asks, Sound, Evolves;
    ReportEffect(backend, room, run, i, id, proof, hash);
    var job := LaterReply(backend, room, run, i + 1, j, id);
    ReportShown(Stores(backend, room, run)[i + 1][id], job, ReplyTo(backend, room, run, j).job);
  }

  lemma ReportShown(reported: Job, job: Job, view: PublicJob)
    requires reported.state.Completed? || reported.state.Failed?
    requires Descends(reported, job) && Shows(view, job)
    ensures view.id == reported.id && view.resultCode == reported.resultCode && view.resultEnvelope == reported.resultEnvelope
    ensures || (view.state == reported.state && view.updatedAt == reported.updatedAt)
            || (reported.state.Failed? && view.state.Cancelled?)
  {
  }

  /** An accepted report leaves the job in the reported state, with the reported result. */
  lemma ReportEffect(backend: Backend, room: string, run: seq<Event>, i: nat, id: string, proof: Proof, hash: string)
    requires i < |run| && id in Stores(backend, room, run)[i] && Stores(backend, room, run)[i][id].state.Accepted?
    requires run[i].what == ActRequest(id, Finish(proof, hash)) && ReplyTo(backend, room, run, i).Replied?
    ensures var before, after := Stores(backend, room, run)[i], Stores(backend, room, run)[i + 1];
            && id in after && after[id].fingerprint == before[id].fingerprint && after[id].id == id
            && after[id].state == (if proof.state == "completed" then Completed else Failed)
            && after[id].updatedAt == run[i].now
            && after[id].resultCode == proof.resultCode && after[id].resultEnvelope == proof.resultEnvelope
            && (proof.state == "completed" || proof.state == "failed")
  {
    var h := Stores(backend, room, run);
    ReachableStore(backend, room, run, i);
    assert StepsAt(backend, room, run, h, i);
    assert JobInv(h[i][id]) && h[i][id].id == id;
    FinishEffect(h[i], id, proof, hash, run[i].now);
    hide JobInv, Stores, Sound, Transition, PutJob;
  }

  lemma FinishEffect(jobs: Jobs, id: string, proof: Proof, hash: string, now: int)
    requires id in jobs && JobInv(jobs[id]) && jobs[id].state.Accepted? && jobs[id].id == id
    requires Transition(jobs, id, Finish(proof, hash), now).1.Replied?
    ensures var after := Transition(jobs, id, Finish(proof, hash), now).0;
            && id in after && after[id].fingerprint == jobs[id].fingerprint && after[id].id == id
            && after[id].state == (if proof.state == "completed" then Completed else Failed)
            && after[id].updatedAt == now
            && after[id].resultCode == proof.resultCode && after[id].resultEnvelope == proof.resultEnvelope
            && (proof.state == "completed" || proof.state == "failed")
  {
    hide JobInv;
  }

  /** The view carries what was requested. */
  predicate Carries(view: PublicJob, what: What, id: string, body: Body, createdAt: int) {
    && view.id == id && Some(view.notBefore) == body.notBefore && Some(view.expiresAt) == body.expiresAt
    && view.writerId == body.writerId && view.createdAt == createdAt
    && body.envelope.Some? && Bare(view.envelope) == Bare(body.envelope.value)
    && (what == GetRequest(id, false) && (view.state.Queued? || view.state.Accepted? || view.state.Failed?)
        ==> view.envelope == body.envelope.value)
    && (what != GetRequest(id, false) ==> view.envelope.box == None)
  }

  /**
   * The request that creates a job and every later reply about the same work carry the request's id,
   * times, writer and addressing, and the time of creation; an answer to a full read carries the
   * whole envelope, box included, as long as the work may still be needed.
   */
  lemma RequestLasts(backend: Backend, room: string, run: seq<Event>, i: nat, j: nat, id: string, c: Canonical)
    requires InOrder(run) && i <= j < |run| && CreatedAt(backend, room, run, i, id, c)
    requires Asks(run[j].what, id) && ReplyTo(backend, room, run, j).Replied?
    requires i < j ==> HoldsWork(Stores(backend, room, run)[j], id, c)
    ensures ReplyTo(backend, room, run, j).status == (if i == j then 201 else 200)
    ensures var view, body := ReplyTo(backend, room, run, j).job, run[i].what.body;
            && Carries(view, run[j].what, id, body, run[i].now)
            && (i == j ==> view.state == Queued && view.updatedAt == run[i].now && view.resultCode == None && view.resultEnvelope == None)
  {
    CreationStored(backend, room, run, i, id, c);
    hide Stores, Step, CreatedAt, JobInv, Shows, Discloses, ReplyTo, StandsFor, Carries;
    var what, body := run[j].what, run[i].what.body;
    if i < j {
      RequestLater(backend, room, run, i, j, id, body);
    } else {
      FirstReply(backend, room, run, i, id);
      var origin, view := Stores(backend, room, run)[i + 1][id], ReplyTo(backend, room, run, j).job;
      RequestShown(backend, what, origin, origin, view, body);
      FirstShown(origin, view);
    }
  }

  lemma RequestLater(backend: Backend, room: string, run: seq<Event>, i: nat, j: nat, id: string, body: Body)
    requires InOrder(run) && i < j < |run| && Asks(run[j].what, id) && ReplyTo(backend, room, run, j).Replied?
    requires var origin := Stores(backend, room, run)[i + 1];
             id in origin && origin[id].id == id && StandsFor(origin[id], body)
             && HoldsWork(Stores(backend, room, run)[j], id, origin[id].fingerprint)
    ensures ReplyTo(backend, room, run, j).status == 200
    ensures Carries(ReplyTo(backend, room, run, j).job, run[j].what, id, body, Stores(backend, room, run)[i + 1][id].createdAt)
  {
    hide Stores, Step, JobInv, Shows, Discloses, ReplyTo, Descends, StandsFor, Carries;
    var job := LaterReply(backend, room, run, i + 1, j, id);
    RequestShown(backend, run[j].what, Stores(backend, room, run)[i + 1][id], job, ReplyTo(backend, room, run, j).job, body);
  }

  /** The job stands for this request, created at `now`. */
  predicate StandsFor(job: Job, body: Body) {
    && Some(job.notBefore) == body.notBefore && Some(job.expiresAt) == body.expiresAt
    && Some(job.envelope) == body.envelope && job.fingerprint.envelope == job.envelope
    && (job.writer.Some? <==> body.writerId.Some?) && (job.writer.Some? ==> Some(job.writer.value.0) == body.writerId)
  }

  lemma FirstShown(job: Job, view: PublicJob)
    requires Shows(view, job) && job.state.Queued? && JobInv(job)
    ensures view.state == Queued && view.updatedAt == job.createdAt && view.resultCode == None && view.resultEnvelope == None
  {
  }

  lemma RequestShown(backend: Backend, what: What, origin: Job, job: Job, view: PublicJob, body: Body)
    requires StandsFor(origin, body) && (job == origin || Descends(origin, job)) && JobInv(job)
    requires Asks(what, origin.id) && Shows(view, job) && Discloses(backend, what, view, job)
    ensures Carries(view, what, origin.id, body, origin.createdAt)
  {
  }

  lemma CreationStored(backend: Backend, room: string, run: seq<Event>, i: nat, id: string, c: Canonical)
    requires i < |run| && CreatedAt(backend, room, run, i, id, c)
    ensures var after := Stores(backend, room, run)[i + 1];
            && HoldsWork(after, id, c) && StandsFor(after[id], run[i].what.body) && JobInv(after[id])
            && after[id].id == id && after[id].createdAt == run[i].now < after[id].expiresAt && after[id].state == Queued
    ensures ReplyTo(backend, room, run, i).Replied? ==> ReplyTo(backend, room, run, i).status == 201
  {
    var h := Stores(backend, room, run);
    assert StepsAt(backend, room, run, h, i);
    CreationEffect(room, h[i], id, run[i].what.body, run[i].now);
    NormalizesExactly(room, id, run[i].what.body, run[i].now);
    hide Stores, NormalizeJob;
  }

  lemma FirstReply(backend: Backend, room: string, run: seq<Event>, i: nat, id: string)
    requires i < |run| && run[i].what.PutRequest? && run[i].what.id == id && ReplyTo(backend, room, run, i).Replied?
    requires id in Stores(backend, room, run)[i + 1]
    requires Stores(backend, room, run)[i + 1][id].state.Queued? && run[i].now < Stores(backend, room, run)[i + 1][id].expiresAt
    ensures Shows(ReplyTo(backend, room, run, i).job, Stores(backend, room, run)[i + 1][id])
    ensures Discloses(backend, run[i].what, ReplyTo(backend, room, run, i).job, Stores(backend, room, run)[i + 1][id])
  {
    hide Stores, Step, Sound, JobInv, Shows, Discloses, Kept;
    var h := Stores(backend, room, run);
    ReachableStore(backend, room, run, i);
    assert StepsAt(backend, room, run, h, i);
    ReplyTells(backend, room, h[i], run[i], id);
  }

  // ---- when a request is accepted ----

  /** The job holds its place and its payload: it is being worked on, may be tried again, or waits unexpired. */
  predicate Active(job: Job, now: int) {
    job.state.Accepted? || job.state.Failed? || (job.state.Queued? && now < job.expiresAt)
  }

  lemma {:induction false} ListedCount(s: set<string>, ids: seq<string>)
    requires Distinct(ids) && forall id :: id in ids <==> id in s
    ensures |s| == |ids|
  {
    if ids == [] {
      assert s == {};
    } else {
      assert ids[0] in ids && ids == [ids[0]] + ids[1..];
      ListedCount(s - {ids[0]}, ids[1..]);
    }
  }

  lemma {:induction false} ActiveBytesListed(jobs: Jobs, ids: seq<string>, size: string -> nat)
    requires Distinct(ids) && forall id :: id in ids <==> id in jobs && RetainsPayload(jobs[id])
    requires forall id :: id in ids ==> size(id) == jobs[id].bytes
    ensures ActiveBytes(jobs) == Sum(ids, size)
  {
    if ids == [] {
      InactiveWeighNothing(jobs);
    } else {
      var id, rest := ids[0], jobs - {ids[0]};
      assert id in ids && ids == [id] + ids[1..] && id !in ids[1..];
      assert Weight(jobs[id]) == size(id);
      hide RetainsPayload, ActiveBytes, Weight;
      ActiveBytesWithout(jobs, id);
      ActiveBytesListed(rest, ids[1..], size);
    }
  }

  lemma ActiveListed(jobs: Jobs, now: int, ids: seq<string>, size: string -> nat)
    requires Distinct(ids) && forall x :: x in ids <==> x in jobs && Active(jobs[x], now)
    requires forall x :: x in ids ==> size(x) == jobs[x].bytes
    ensures var current := ExpireAll(jobs, now);
            |current| == |jobs| && |ActiveIds(current)| == |ids| && ActiveBytes(current) == Sum(ids, size)
  {
    hide JobInv, Evolves, ActiveBytes, Distinct;
    var current := ExpireAll(jobs, now);
    assert |current| == |current.Keys| && |jobs| == |jobs.Keys|;
    forall x ensures x in ids <==> x in current && RetainsPayload(current[x]) {}
    ListedCount(ActiveIds(current), ids);
    ActiveBytesListed(current, ids, size);
  }

  /**
   * The answer to a request for work. A malformed one is refused with 400, known work is answered 200
   * and other work under a known id 409. New work is refused with 429 exactly when 10,000 receipts or
   * 100 active jobs are held already, or when with it more than 48,000,000 active bytes would be;
   * `ids` lists the active jobs.
   */
  lemma PutAnswers(room: string, jobs: Jobs, id: string, body: Body, now: int, ids: seq<string>, size: string -> nat)
    requires Distinct(ids) && forall x :: x in ids <==> x in jobs && Active(jobs[x], now)
    requires forall x :: x in ids ==> size(x) == jobs[x].bytes
    ensures var reply := PutJob(room, jobs, id, body, now).1;
            if id in jobs then
              var again := NormalizeJob(room, id, body, jobs[id].createdAt);
              reply.status == if again.None? then 400 else if again.value == jobs[id].fingerprint then 200 else 409
            else
              reply.status == if NormalizeJob(room, id, body, now).None? then 400
                              else if |jobs| >= 10000 || |ids| >= 100 || Sum(ids, size) + body.encodedBytes > 48000000 then 429
                              else 201
    ensures var (after, reply) := PutJob(room, jobs, id, body, now);
            reply.status == 201 ==> id in after && after[id].state == Queued && after[id].bytes == body.encodedBytes
  {
    hide JobInv, NormalizeJob, Evolves, ActiveBytes, Distinct;
    if id !in jobs {
      ActiveListed(jobs, now, ids, size);
      hide ExpireAll, ActiveIds;
    }
  }

  /** A request about a job is answered 404 exactly when no such job is held; nothing else is 404. */
  lemma UnknownJob(backend: Backend, room: string, jobs: Jobs, event: Event, id: string)
    requires event.what.ActRequest? || event.what.GetRequest?
    requires Asks(event.what, id)
    ensures Step(backend, room, jobs, event).1.status == 404 <==> id !in jobs
    ensures id !in jobs ==> id !in Step(backend, room, jobs, event).0
  {
    hide JobInv, ClaimJob, FinishJob, Evolves;
    match event.what {
      case ActRequest(_, action) =>
        if id in jobs {
          ActStatus(jobs[id], action, event.now);
        }
      case GetRequest(_, _) =>
    }
  }

  lemma ActStatus(job: Job, action: Action, now: int)
    ensures Act(job, action, now).status in {200, 400, 403, 409}
    ensures Act(job, action, now).Done? <==> Act(job, action, now).status == 200
  {
  }

  /** Every read of a held job is answered, but for the full read by which the Worker finds it expired. */
  lemma ReadAnswered(backend: Backend, room: string, jobs: Jobs, id: string, metadataOnly: bool, now: int)
    requires id in jobs
    ensures Step(backend, room, jobs, Event(now, GetRequest(id, metadataOnly))).1.Replied? <==>
            !(backend.Worker? && !metadataOnly && jobs[id].state.Queued? && jobs[id].expiresAt <= now)
  {
  }

  /** The state may change like that: by the request made for it, or by expiring while the job waits. */
  predicate HasCause(before: Job, after: Job, event: Event, id: string) {
    before.state != after.state ==>
      match after.state
      case Expired => before.state.Queued? && before.expiresAt <= event.now
      case Accepted => before.state.Queued? && event.what.ActRequest? && event.what.id == id && event.what.action.Claim?
      case Cancelled => (before.state.Queued? || before.state.Failed?) && event.what == ActRequest(id, Cancel)
      case Queued => false
      case _ => before.state.Accepted? && event.what.ActRequest? && event.what.id == id && event.what.action.Finish?
  }

  lemma ExpiryIsCause(job: Job, event: Event, id: string)
    ensures HasCause(job, ExpireJob(job, event.now), event, id)
    ensures HasCause(job, job, event, id)
  {
  }

  lemma ActIsCause(job: Job, action: Action, now: int, id: string)
    requires JobInv(job) && Act(job, action, now).Done?
    ensures HasCause(job, Act(job, action, now).row, Event(now, ActRequest(id, action)), id)
  {
    hide JobInv;
  }

  lemma PutExpiresOnly(room: string, jobs: Jobs, id: string, body: Body, now: int, other: string)
    requires other in jobs
    ensures var after := PutJob(room, jobs, id, body, now).0;
            other in after && (after[other] == jobs[other] || after[other] == ExpireJob(jobs[other], now))
  {
    hide NormalizeJob, ExpireJob, Full, NewJob, Public;
  }

  lemma ActChangesOne(jobs: Jobs, id: string, action: Action, now: int, other: string)
    requires other in jobs
    ensures var after := Transition(jobs, id, action, now).0;
            && other in after
            && after[other] == if other == id && Act(jobs[id], action, now).Done? then Act(jobs[id], action, now).row else jobs[other]
  {
    hide Act, Public;
  }

  /** A job changes its state only by the request made for that, or by expiring while it waits. */
  lemma ChangeHasCause(backend: Backend, room: string, jobs: Jobs, event: Event, id: string)
    requires Sound(jobs) && id in jobs && id in Step(backend, room, jobs, event).0
    ensures HasCause(jobs[id], Step(backend, room, jobs, event).0[id], event, id)
  {
    ExpiryIsCause(jobs[id], event, id);
    assert JobInv(jobs[id]);
    hide HasCause, JobInv, ExpireJob, Act, PutJob, Transition, Sound, ReadReply, Echoed, Purgeable;
    match event.what {
      case PutRequest(other, body) => PutExpiresOnly(room, jobs, other, body, event.now, id);
      case ActRequest(other, action) =>
        ActChangesOne(jobs, other, action, event.now, id);
        if other == id && Act(jobs[id], action, event.now).Done? {
          ActIsCause(jobs[id], action, event.now, id);
        }
      case _ =>
    }
  }

  // ---- what a receiver is offered ----

  /** The job may be offered to this recipient now. */
  predicate Waiting(job: Job, recipient: string, now: int, excluded: set<string>) {
    && job.state == Queued && job.notBefore <= now && now < job.expiresAt
    && job.envelope.recipientKeyId == Some(recipient) && job.id !in excluded
  }

  /**
   * An offer: none exactly when no job waits for the recipient; else one waiting job, with the whole
   * envelope it was created with, scheduled no later than any other, and of those created first.
   */
  lemma OfferMeans(jobs: Jobs, recipient: string, now: int, excluded: set<string>, offer: seq<PublicJob>)
    requires Sound(jobs) && TaskNode.OffersEarliest(jobs, recipient, now, excluded, offer)
    ensures |offer| <= 1
    ensures offer == [] <==> forall id :: id in jobs ==> !Waiting(jobs[id], recipient, now, excluded)
    ensures offer != [] ==> exists id ::
              && id in jobs && Waiting(jobs[id], recipient, now, excluded) && Shows(offer[0], jobs[id])
              && offer[0].envelope == jobs[id].fingerprint.envelope && offer[0].envelope.box.Some?
              && forall other :: other in jobs && Waiting(jobs[other], recipient, now, excluded) ==>
                   || jobs[id].notBefore < jobs[other].notBefore
                   || (jobs[id].notBefore == jobs[other].notBefore && jobs[id].createdAt <= jobs[other].createdAt)
  {
    forall id | id in jobs && Waiting(jobs[id], recipient, now, excluded)
      ensures Shows(Public(jobs[id]), jobs[id]) && Public(jobs[id]).envelope == jobs[id].fingerprint.envelope
      ensures jobs[id].fingerprint.envelope.box.Some?
    {
      assert JobInv(jobs[id]);
      OfferShows(jobs[id], recipient, now, excluded);
    }
    forall id | id in jobs
      ensures TaskNode.Eligible(jobs[id], recipient, now, excluded) == Waiting(jobs[id], recipient, now, excluded)
    {
    }
    hide TaskNode.Eligible, Waiting, Shows, Public, Sound;
  }

  lemma OfferShows(job: Job, recipient: string, now: int, excluded: set<string>)
    requires JobInv(job) && Waiting(job, recipient, now, excluded)
    ensures Shows(Public(job), job) && Public(job).envelope == job.fingerprint.envelope
    ensures job.fingerprint.envelope.box.Some?
  {
  }
}
