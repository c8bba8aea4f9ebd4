/**
 * How the Worker keeps a job: a record without its box, and the box in 64,000-unit chunks under
 * keys of their own. The digest stands for SHA-256, taken to be injective.
 */
module TaskCiphertext {
  import opened Lists
  import opened Text
  import opened Wire
  import opened TaskPolicy
  import opened TaskJobs

  const CHUNK_UNITS := 64000

  datatype Digest = Digest(text: string)
  datatype Cipher = Cipher(count: nat, digest: Digest, bytes: nat)
  datatype Saved = Saved(job: Job, cipher: Option<Cipher>)

  datatype Key = RecordKey(id: string) | BoxKey(id: string, index: nat)
  datatype Value = RecordValue(saved: Saved) | BoxValue(text: string)

  function Look(storage: map<Key, Value>, k: Key): Option<Value> {
    if k in storage then Some(storage[k]) else None
  }

  function ChunkCount(box: string): nat { CeilDiv(|box|, CHUNK_UNITS) }

  function Boxless(job: Job): Job { job.(envelope := job.envelope.(box := None)) }

  function CipherOf(job: Job): Option<Cipher> {
    if job.envelope.box.None? then None
    else
      var box := job.envelope.box.value;
      Some(Cipher(ChunkCount(box), Digest(box), |box|))
  }

  /** What storage must hold under `k` for the job of that id. */
  function JobValue(job: Job, k: Key): Option<Value> {
    match k
    case RecordKey(_) => Some(RecordValue(Saved(Boxless(job), CipherOf(job))))
    case BoxKey(_, index) =>
      if job.envelope.box.Some? && index < ChunkCount(job.envelope.box.value)
      then Some(BoxValue(Slice(job.envelope.box.value, CHUNK_UNITS, index))) else None
  }

  function Expected(jobs: Jobs, k: Key): Option<Value> {
    if k.id in jobs then JobValue(jobs[k.id], k) else None
  }

  /** Storage holds these jobs and no other key: chunks exist exactly for jobs that retain their payload. */
  ghost predicate Represents(storage: map<Key, Value>, jobs: Jobs) {
    forall k: Key :: Look(storage, k) == Expected(jobs, k)
  }

  /** The cipher field `writeTaskJob` leaves on the record. */
  function CipherAfter(row: Job, cipher: Option<Cipher>): Option<Cipher> {
    if !RetainsPayload(row) then None
    else if cipher.None? then CipherOf(row)
    else cipher
  }

  /** What `writeTaskJob` does to storage when it writes `row`, whose record had this cipher field. */
  function Rewritten(start: map<Key, Value>, k: Key, id: string, row: Job, cipher: Option<Cipher>): Option<Value> {
    if k == RecordKey(id) then Some(RecordValue(Saved(Boxless(row), CipherAfter(row, cipher))))
    else if k.id != id then Look(start, k)
    else if !RetainsPayload(row) then
      if cipher.Some? && k.index < cipher.value.count then None else Look(start, k)
    else if cipher.None? && row.envelope.box.Some? && k.index < ChunkCount(row.envelope.box.value) then
      Some(BoxValue(Slice(row.envelope.box.value, CHUNK_UNITS, k.index)))
    else Look(start, k)
  }

  lemma PayloadHasBox(job: Job)
    requires JobInv(job)
    ensures RetainsPayload(job) <==> job.envelope.box.Some?
    ensures RetainsPayload(job) ==> 24 <= |job.envelope.box.value| <= JOB_BYTES
  {
  }

  lemma KeptPayloadSame(a: Job, b: Job)
    requires JobInv(a) && Kept(a, b) && RetainsPayload(b)
    ensures RetainsPayload(a) && a.envelope == b.envelope
  {
  }

  /** Writing a kept job's new row, its box already in chunks, keeps storage exact. */
  lemma RewriteKeeps(after: map<Key, Value>, start: map<Key, Value>, jobs: Jobs, id: string, next: Job)
    requires Represents(start, jobs) && id in jobs && JobInv(jobs[id]) && Kept(jobs[id], next)
    requires forall k: Key :: Look(after, k) == Rewritten(start, k, id, Boxless(next), CipherOf(jobs[id]))
    ensures Represents(after, jobs[id := next])
  {
    KeptWeighsNoMore(jobs[id], next);
    PayloadHasBox(jobs[id]);
    PayloadHasBox(next);
    if RetainsPayload(next) {
      KeptPayloadSame(jobs[id], next);
    }
    hide JobInv, Kept;
    forall k: Key ensures Look(after, k) == Expected(jobs[id := next], k) {
      assert Look(start, k) == Expected(jobs, k);
    }
  }

  /** Writing a new job cuts its box into chunks. */
  lemma RewriteCreates(after: map<Key, Value>, start: map<Key, Value>, jobs: Jobs, id: string, job: Job)
    requires Represents(start, jobs) && id !in jobs && JobInv(job) && RetainsPayload(job)
    requires forall k: Key :: Look(after, k) == Rewritten(start, k, id, job, None)
    ensures Represents(after, jobs[id := job])
  {
  }

  /** Deleting a record and the chunks its cipher field counts leaves nothing of the job. */
  lemma EraseExact(after: map<Key, Value>, start: map<Key, Value>, jobs: Jobs, id: string)
    requires Represents(start, jobs) && id in jobs
    requires forall k: Key :: Look(after, k) ==
               if k == RecordKey(id) then None
               else if k.id == id && CipherOf(jobs[id]).Some? && k.index < CipherOf(jobs[id]).value.count then None
               else Look(start, k)
    ensures Represents(after, jobs - {id})
  {
  }

  /** The policy never reads the box: it acts the same on a record without it. */
  lemma BoxlessExpire(job: Job, now: int)
    ensures ExpireJob(Boxless(job), now) == Boxless(ExpireJob(job, now))
  {
  }

  lemma BoxlessClaim(job: Job, proof: Proof, hash: string, now: int)
    ensures var full := ClaimJob(job, proof, now, hash);
            ClaimJob(Boxless(job), proof, now, hash) == if full.Done? then Done(full.status, Boxless(full.row)) else full
  {
    BoxlessExpire(job, now);
  }

  lemma BoxlessFinish(job: Job, proof: Proof, hash: string, now: int)
    ensures var full := FinishJob(job, proof, now, hash);
            FinishJob(Boxless(job), proof, now, hash) == if full.Done? then Done(full.status, Boxless(full.row)) else full
  {
    hide ValidEnvelope, ValidJobId, ResultCode;
  }

  lemma BoxlessCancel(job: Job, now: int)
    ensures var full := CancelJob(job, now);
            CancelJob(Boxless(job), now) == if full.Done? then Done(full.status, Boxless(full.row)) else full
  {
  }

  lemma BoxlessAct(job: Job, action: Action, now: int)
    ensures var full := Act(job, action, now);
            Act(Boxless(job), action, now) == if full.Done? then Done(full.status, Boxless(full.row)) else full
  {
    hide ClaimJob, FinishJob, CancelJob, Boxless;
    match action
    case Claim(proof, hash) => BoxlessClaim(job, proof, hash, now);
    case Finish(proof, hash) => BoxlessFinish(job, proof, hash, now);
    case Cancel => BoxlessCancel(job, now);
  }

  /** No accepted box needs more than 344 chunks. */
  lemma ChunkBound(box: string)
    requires 24 <= |box| <= JOB_BYTES
    ensures 1 <= ChunkCount(box) <= 344
  {
  }

  /**
   * The shape of the storage: one record for each job, without its box; and as long as the job may
   * be needed, its box in consecutive pieces of at most 64,000 units. There is nothing else.
   */
  lemma StorageShape(storage: map<Key, Value>, jobs: Jobs, id: string, index: nat)
    requires Represents(storage, jobs) && Sound(jobs)
    ensures RecordKey(id) in storage <==> id in jobs
    ensures id in jobs ==> storage[RecordKey(id)].RecordValue? && storage[RecordKey(id)].saved.job.envelope.box == None
    ensures BoxKey(id, index) in storage <==>
            && id in jobs && jobs[id].state in {Queued, Accepted, Failed}
            && jobs[id].envelope.box.Some? && index * 64000 < |jobs[id].envelope.box.value|
    ensures BoxKey(id, index) in storage ==>
              && storage[BoxKey(id, index)].BoxValue? && 0 < |storage[BoxKey(id, index)].text| <= 64000
              && var box := jobs[id].envelope.box.value;
                 var from, piece := index * 64000, storage[BoxKey(id, index)].text;
                 from + |piece| <= |box| && box[from..from + |piece|] == piece && (from + |piece| < |box| ==> |piece| == 64000)
  {
    assert Look(storage, RecordKey(id)) == Expected(jobs, RecordKey(id));
    assert Look(storage, BoxKey(id, index)) == Expected(jobs, BoxKey(id, index));
    if id in jobs {
      PayloadHasBox(jobs[id]);
      hide JobInv;
      if RetainsPayload(jobs[id]) {
        ChunksCover(|jobs[id].envelope.box.value|, index);
      }
    }
  }

  lemma ChunksCover(n: nat, index: nat)
    ensures index < CeilDiv(n, CHUNK_UNITS) <==> index * CHUNK_UNITS < n
  {
  }
}
