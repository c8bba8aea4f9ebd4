/**
 * The one alarm of a Worker room: endpoint records, jobs, configurations and background wakes
 * share it. Scheduling it is sound; a refused endpoint record is the one way to lose a deadline.
 */
module RoomAlarm {
  import opened Lists
  import opened TaskPolicy
  import opened TaskJobs
  import TaskWorker
  import Wake

  const ENDPOINT_RECIPIENT_LIMIT := 32

  /** `next` is the earliest expiry in the directory. */
  ghost predicate EarliestExpiry(next: Option<int>, endpoints: map<string, int>) {
    && (forall e :: e in endpoints ==> next.Some? && next.value <= endpoints[e])
    && (next.Some? ==> exists e :: e in endpoints && endpoints[e] == next.value)
  }

  function Live(endpoints: map<string, int>, now: int): map<string, int> {
    map e | e in endpoints && endpoints[e] > now :: endpoints[e]
  }

  /** No deadline of the jobs, the configurations or the wake comes before `alarm`. */
  ghost predicate CoversWork(alarm: Option<int>, jobs: Jobs, configurations: map<string, int>, wake: Option<Wake.Record>,
                             recipients: Option<set<string>>, now: int) {
    && (forall id :: id in jobs && TaskWorker.Deadline(jobs[id], recipients, now).Some?
                     ==> alarm.Some? && alarm.value <= TaskWorker.Deadline(jobs[id], recipients, now).value)
    && (forall c :: c in configurations ==> alarm.Some? && alarm.value <= configurations[c])
    && (Wake.NextAt(wake).Some? ==> alarm.Some? && alarm.value <= Wake.NextAt(wake).value)
  }

  ghost predicate CoversEndpoints(alarm: Option<int>, endpoints: map<string, int>) {
    forall e :: e in endpoints ==> alarm.Some? && alarm.value <= endpoints[e]
  }

  /** `alarm` is a deadline of something in the room. */
  ghost predicate IsADeadline(alarm: int, endpoints: map<string, int>, jobs: Jobs, configurations: map<string, int>,
                              wake: Option<Wake.Record>, recipients: Option<set<string>>, now: int) {
    || (exists e :: e in endpoints && endpoints[e] == alarm)
    || (exists id :: id in jobs && TaskWorker.Deadline(jobs[id], recipients, now) == Some(alarm))
    || (exists c :: c in configurations && configurations[c] == alarm)
    || Wake.NextAt(wake) == Some(alarm)
  }

  /** At `t` nothing has expired, become due or come up for deletion since the alarm was set. */
  ghost predicate QuietAt(t: int, endpoints: map<string, int>, jobs: Jobs, configurations: map<string, int>,
                          wake: Option<Wake.Record>, recipients: Option<set<string>>, now: int) {
    && Live(endpoints, t) == endpoints
    && Purge(jobs, t) == jobs
    && (forall id :: id in jobs ==> TaskWorker.QuietUntil(jobs[id], recipients, now, t))
    && (forall c :: c in configurations ==> t < configurations[c])
    && !Wake.Decide(wake, t).Claim?
    && (wake.Some? && wake.value.pending.Some? ==> t < wake.value.pending.value.expiresAt)
  }

  /** Strictly before an alarm that covers everything, the room is quiet. */
  lemma AlarmSound(alarm: Option<int>, endpoints: map<string, int>, jobs: Jobs, configurations: map<string, int>,
                   wake: Option<Wake.Record>, recipients: Option<set<string>>, now: int, t: int)
    requires CoversEndpoints(alarm, endpoints) && CoversWork(alarm, jobs, configurations, wake, recipients, now)
    requires Purge(jobs, now) == jobs && (wake.Some? ==> Wake.SoundRecord(wake.value))
    requires now <= t && (alarm.Some? ==> t < alarm.value)
    ensures QuietAt(t, endpoints, jobs, configurations, wake, recipients, now)
  {
    hide ExpireJob, Purgeable, TaskWorker.Deadline, Wake.SoundRecord, TaskWorker.QuietUntil, TaskWorker.Connected;
    forall id | id in jobs
      ensures TaskWorker.QuietUntil(jobs[id], recipients, now, t) && ExpireJob(jobs[id], t) == jobs[id] && !Purgeable(jobs[id], t)
    {
      assert id in Purge(jobs, now);
      TaskWorker.DeadlineSound(jobs[id], recipients, now, t);
      QuietMeansKept(jobs[id], recipients, now, t);
    }
    assert Purge(jobs, t) == jobs;
    Wake.NextAtIsExact(wake, t);
    WakeQuiet(wake, t, alarm);
  }

  lemma SoonestCovers(endpointAlarm: Option<int>, taskAlarm: Option<int>, endpoints: map<string, int>, jobs: Jobs,
                      configurations: map<string, int>, wake: Option<Wake.Record>, recipients: Option<set<string>>, now: int)
    requires EarliestExpiry(endpointAlarm, endpoints)
    requires TaskWorker.EarliestDeadline(taskAlarm, jobs, configurations, recipients, now)
    ensures var alarm := TaskWorker.Sooner(TaskWorker.Sooner(endpointAlarm, taskAlarm), Wake.NextAt(wake));
            && CoversEndpoints(alarm, endpoints) && CoversWork(alarm, jobs, configurations, wake, recipients, now)
            && (alarm.Some? ==> IsADeadline(alarm.value, endpoints, jobs, configurations, wake, recipients, now))
  {
  }

  lemma QuietMeansKept(job: Job, recipients: Option<set<string>>, now: int, t: int)
    requires TaskWorker.QuietUntil(job, recipients, now, t)
    ensures ExpireJob(job, t) == job && !Purgeable(job, t)
  {
  }

  lemma WakeQuiet(wake: Option<Wake.Record>, t: int, alarm: Option<int>)
    requires wake.Some? ==> Wake.SoundRecord(wake.value)
    requires Wake.NextAt(wake).Some? ==> alarm.Some? && alarm.value <= Wake.NextAt(wake).value
    requires alarm.Some? ==> t < alarm.value
    ensures !Wake.Decide(wake, t).Claim?
    ensures wake.Some? && wake.value.pending.Some? ==> t < wake.value.pending.value.expiresAt
  {
  }

  /**
   * When the alarm is set for the endpoints alone, it covers the room's work if and only if some
   * endpoint expires no later than every job, configuration and wake deadline.
   */
  lemma EndpointAlarmCovers(alarm: Option<int>, endpoints: map<string, int>, jobs: Jobs, configurations: map<string, int>,
                            wake: Option<Wake.Record>, recipients: Option<set<string>>, now: int)
    requires EarliestExpiry(alarm, endpoints) && endpoints != map[]
    ensures CoversWork(alarm, jobs, configurations, wake, recipients, now) <==>
            exists e :: e in endpoints && CoversWork(Some(endpoints[e]), jobs, configurations, wake, recipients, now)
  {
  }

  class Room {
    const tasks: TaskWorker.WorkerTaskDispatchStore
    const wakes: Wake.WakeDelivery
    /** The expiry of each stored endpoint record. */
    var endpoints: map<string, int>
    var alarm: Option<int>

    constructor (tasks: TaskWorker.WorkerTaskDispatchStore, wakes: Wake.WakeDelivery)
      ensures this.tasks == tasks && this.wakes == wakes && endpoints == map[] && alarm == None
    {
      this.tasks, this.wakes, endpoints, alarm := tasks, wakes, map[], None;
    }

    ghost predicate Covered(recipients: set<string>, now: int)
      reads this, tasks, wakes
    {
      && CoversEndpoints(alarm, endpoints)
      && CoversWork(alarm, tasks.jobs, tasks.configurations, Wake.Stored(wakes.table, "room"), Some(recipients), now)
    }

    /** Drops expired records and sets the alarm for the earliest that remains. */
    method PurgeEndpointDirectory(now: int) returns (next: Option<int>)
      modifies this
      ensures endpoints == Live(old(endpoints), now)
      ensures forall e :: e in endpoints <==> e in old(endpoints) && now < old(endpoints)[e]
      ensures forall e :: e in endpoints ==> endpoints[e] == old(endpoints)[e]
      ensures EarliestExpiry(next, endpoints) && alarm == next
    {
      next := None;
      var todo := endpoints.Keys;
      while todo != {}
        invariant todo <= endpoints.Keys <= old(endpoints).Keys
        invariant forall e :: e in endpoints ==> endpoints[e] == old(endpoints)[e]
        invariant forall e :: e in old(endpoints) && e !in todo ==> (e in endpoints <==> old(endpoints)[e] > now)
        invariant forall e :: e in endpoints && e !in todo ==> next.Some? && next.value <= endpoints[e]
        invariant next.Some? ==> exists e :: e in endpoints && e !in todo && endpoints[e] == next.value
        decreases todo
      {
        var e :| e in todo;
        if endpoints[e] <= now {
          endpoints := endpoints - {e};
        } else {
          next := TaskWorker.Sooner(next, Some(endpoints[e]));
        }
        todo := todo - {e};
      }
      alarm := next;
    }

    /** `putDirectoryEndpoint`: at most 32 recipients; the alarm it leaves is for endpoints only. */
    method PutDirectoryEndpoint(key: string, expiresAt: int, now: int) returns (stored: bool)
      modifies this
      ensures stored <==> key in Live(old(endpoints), now) || |Live(old(endpoints), now)| < 32
      ensures |old(endpoints)| <= 32 ==> |endpoints| <= 32
      ensures endpoints == if stored then Live(old(endpoints), now)[key := expiresAt] else Live(old(endpoints), now)
      ensures CoversEndpoints(alarm, endpoints)
      ensures !stored ==> EarliestExpiry(alarm, endpoints)
    {
      var earliest := PurgeEndpointDirectory(now);
      FewerKeys(endpoints, old(endpoints));
      if key !in endpoints && |endpoints| >= ENDPOINT_RECIPIENT_LIMIT {
        return false;
      }
      alarm := TaskWorker.Sooner(Some(expiresAt), earliest);
      endpoints := endpoints[key := expiresAt];
      return true;
    }

    /** `scheduleRoomTaskAlarm`: afterwards the alarm is the earliest deadline of the room, and no other time. */
    method Schedule(now: int, later: int, recipients: set<string>)
      requires tasks.Valid() && now <= later
      modifies this, tasks
      ensures tasks.Valid() && tasks.jobs == Purge(old(tasks.jobs), later)
      ensures endpoints == Live(old(endpoints), now)
      ensures tasks.configurations == Live(old(tasks.configurations), later)
      ensures Covered(recipients, later)
      ensures alarm.Some? ==> IsADeadline(alarm.value, endpoints, tasks.jobs, tasks.configurations,
                                          Wake.Stored(wakes.table, "room"), Some(recipients), later)
    {
      hide Purge, TaskWorker.Deadline, Wake.NextAt, Wake.Stored, EarliestExpiry, TaskWorker.EarliestDeadline,
           CoversEndpoints, CoversWork, IsADeadline, TaskWorker.Sooner, Sound, WithinCapacity;
      var endpointAlarm := PurgeEndpointDirectory(now);
      var taskAlarm := tasks.Maintain(later, Some(recipients));
      var wakeAlarm := wakes.NextDue("room");
      SoonestCovers(endpointAlarm, taskAlarm, endpoints, tasks.jobs, tasks.configurations,
                    Wake.Stored(wakes.table, "room"), Some(recipients), later);
      alarm := TaskWorker.Sooner(TaskWorker.Sooner(endpointAlarm, taskAlarm), wakeAlarm);
    }

    /** `PUT` of an endpoint record: the alarm is scheduled again only when the record is stored. */
    method HandleEndpointPut(key: string, expiresAt: int, now: int, later: int, recipients: set<string>)
      returns (status: int)
      requires tasks.Valid() && now <= later
      modifies this, tasks
      ensures tasks.Valid()
      ensures status == 200 || status == 409
      ensures status == 200 <==> key in Live(old(endpoints), now) || |Live(old(endpoints), now)| < 32
      ensures status == 200 ==> endpoints == Live(Live(old(endpoints), now)[key := expiresAt], later)
      ensures status == 200 ==> Covered(recipients, later) && tasks.jobs == Purge(old(tasks.jobs), later)
      ensures status == 409 ==>
                && tasks.jobs == old(tasks.jobs) && tasks.configurations == old(tasks.configurations)
                && |Live(old(endpoints), now)| >= 32 && endpoints == Live(old(endpoints), now)
                && EarliestExpiry(alarm, endpoints)
                && (Covered(recipients, later) <==>
                    exists e :: e in endpoints &&
                      CoversWork(Some(endpoints[e]), tasks.jobs, tasks.configurations, Wake.Stored(wakes.table, "room"),
                                 Some(recipients), later))
    {
      var stored := PutDirectoryEndpoint(key, expiresAt, now);
      if stored {
        Schedule(later, later, recipients);
        return 200;
      }
      EndpointAlarmCovers(alarm, endpoints, tasks.jobs, tasks.configurations, Wake.Stored(wakes.table, "room"),
                          Some(recipients), later);
      return 409;
    }
  }

  /** The earliest work deadline lies before every endpoint's expiry. */
  lemma LaterEndpointsUncovering(endpoints: map<string, int>, jobs: Jobs, configurations: map<string, int>,
                                 wake: Option<Wake.Record>, recipients: Option<set<string>>, now: int, id: string)
    requires id in jobs && TaskWorker.Deadline(jobs[id], recipients, now).Some?
    requires forall e :: e in endpoints ==> TaskWorker.Deadline(jobs[id], recipients, now).value < endpoints[e]
    ensures !exists e :: e in endpoints && CoversWork(Some(endpoints[e]), jobs, configurations, wake, recipients, now)
  {
    hide TaskWorker.Deadline, Wake.NextAt;
  }

  /**
   * A reachable room that loses a deadline: one job is stored, 32 recipients store endpoint records
   * that expire after it, and the refusal of a 33rd leaves the job's expiry uncovered.
   */
  method RefusalLosesDeadline() returns (room: Room, status: int)
    ensures status == 409 && room.tasks.Valid() && !room.Covered({}, 0)
  {
    hide NormalizeJob, JobInv, Sound, WithinCapacity, PutJob;
    var tasks := new TaskWorker.WorkerTaskDispatchStore(SampleRoom());
    var wakes := new Wake.WakeDelivery();
    room := new Room(tasks, wakes);
    var id, expiresAt := SampleId(), 1000;
    var reply := tasks.Put(id, SampleBody(expiresAt), 0);
    ghost var jobs := tasks.jobs;
    SampleStored(expiresAt);
    for n := 0 to ENDPOINT_RECIPIENT_LIMIT
      invariant tasks.Valid() && tasks.jobs == jobs && room.tasks == tasks && room.wakes == wakes
      invariant |room.endpoints| == n
      invariant forall e :: e in room.endpoints ==> |e| <= n && room.endpoints[e] == 2 * expiresAt
    {
      AllLive(room.endpoints, 0);
      AllLive(room.endpoints[Letters('e', n + 1) := 2 * expiresAt], 0);
      var stored := room.HandleEndpointPut(Letters('e', n + 1), 2 * expiresAt, 0, 0, {});
    }
    AllLive(room.endpoints, 0);
    var refused := Letters('e', ENDPOINT_RECIPIENT_LIMIT + 1);
    status := room.HandleEndpointPut(refused, 2 * expiresAt, 0, 0, {});
    LaterEndpointsUncovering(room.endpoints, jobs, tasks.configurations, Wake.Stored(wakes.table, "room"), Some({}), 0, id);
  }

  lemma AllLive(endpoints: map<string, int>, now: int)
    requires forall e :: e in endpoints ==> endpoints[e] > now
    ensures Live(endpoints, now) == endpoints
  {
  }

  lemma SampleStored(expiresAt: int)
    requires 0 < expiresAt <= JOB_TTL_MS
    ensures var jobs := PutJob(SampleRoom(), map[], SampleId(), SampleBody(expiresAt), 0).0;
            && SampleId() in jobs && TaskWorker.Deadline(jobs[SampleId()], Some({}), 0) == Some(expiresAt)
            && Purge(jobs, 0) == jobs
  {
    SampleAccepted(expiresAt);
    EmptyRoomAdmits(SampleRoom(), SampleId(), SampleBody(expiresAt), 0);
    var jobs := PutJob(SampleRoom(), map[], SampleId(), SampleBody(expiresAt), 0).0;
    assert jobs.Keys == {SampleId()};
  }
}
