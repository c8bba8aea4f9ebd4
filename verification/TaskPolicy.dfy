/** The state machine of one durable task job, and the facts every transition keeps. */
module TaskPolicy {
  import opened Lists
  import opened Wire

  const JOB_TTL_MS := 30 * 86400000
  const JOB_BYTES := 22000000
  const ROOM_JOB_BYTES := 48000000
  const ROOM_JOB_LIMIT := 100
  const ROOM_RECEIPT_LIMIT := 10000
  const RECEIPT_RETENTION_MS := 7 * 86400000
  const RESULT_BYTES := 32000

  datatype State = Queued | Accepted | Failed | Completed | Cancelled | Expired

  /** The normalized job a body stands for; two bodies are the same work when these are equal. */
  datatype Canonical = Canonical(
    notBefore: int, expiresAt: int, acceptanceHash: string, envelope: Envelope,
    writer: Option<(string, string)>)

  /**
   * A request body. `wellFormed`: a JSON object with known keys only; a number field that is not
   * a number is `None`. `encodedBytes` is the UTF-8 size of its canonical JSON text, which
   * contains the box.
   */
  datatype RawBody = RawBody(
    wellFormed: bool, notBefore: Option<int>, expiresAt: Option<int>, acceptanceHash: Option<string>,
    envelope: Option<Envelope>, writerId: Option<string>, writerSourceKeyId: Option<string>, encodedBytes: nat)

  type Body = b: RawBody | b.envelope.Some? && b.envelope.value.box.Some?
                           ==> |b.envelope.value.box.value| <= b.encodedBytes
    witness RawBody(false, None, None, None, None, None, None, 0)

  /** `fingerprint` stands for the SHA-256 of the canonical text, taken to be injective. */
  datatype Job = Job(
    id: string, state: State, notBefore: int, expiresAt: int, acceptanceHash: string, envelope: Envelope,
    writer: Option<(string, string)>, fingerprint: Canonical, bytes: nat, createdAt: int, updatedAt: int,
    claimId: Option<string>, resultCode: Option<string>, resultEnvelope: Option<Envelope>)

  /** What a receiver presents; `resultBytes` is the UTF-8 size of the result envelope's JSON text. */
  datatype Proof = Proof(
    recipientKeyId: Option<string>, token: Option<string>, claimId: Option<string>, state: string,
    resultCode: Option<string>, resultEnvelope: Option<Envelope>, resultBytes: nat)

  datatype Outcome = Refused(status: int) | Done(status: int, row: Job)

  predicate RetainsPayload(job: Job) { job.state.Queued? || job.state.Accepted? || job.state.Failed? }

  predicate ValidJobId(s: string) {
    && 8 <= |s| <= 120 && Alphanumeric(s[0])
    && forall i :: 0 <= i < |s| ==> Alphanumeric(s[i]) || s[i] == '_' || s[i] == '-'
  }

  /** A job id is 8 to 120 letters, digits, underscores and hyphens, the first a letter or digit. */
  lemma JobIdMeans(s: string)
    ensures ValidJobId(s) <==>
            && 8 <= |s| <= 120 && s[0] != '_' && s[0] != '-'
            && forall c :: c in s ==> '0' <= c <= '9' || 'a' <= c <= 'z' || 'A' <= c <= 'Z' || c == '_' || c == '-'
  {
    if ValidJobId(s) {
      forall c | c in s ensures Alphanumeric(c) || c == '_' || c == '-' {
        var i :| 0 <= i < |s| && s[i] == c;
      }
    } else if 8 <= |s| <= 120 {
      assert s[0] in s;
      if i :| 0 <= i < |s| && !(Alphanumeric(s[i]) || s[i] == '_' || s[i] == '-') {
        assert s[i] in s;
      }
    }
  }

  /** `normalizeJob`: what it accepts is sound work that has not expired and fits the size limits. */
  function NormalizeJob(room: string, id: string, body: Body, now: int): (r: Option<Canonical>)
    ensures r.Some? ==> now < r.value.expiresAt <= now + JOB_TTL_MS && JobInv(NewJob(id, r.value, body.encodedBytes, now))
    ensures r.Some? ==>
              && r.value.envelope.deliveryId == Some(id) && r.value.envelope.room == room && r.value.envelope.to == "machine"
              && r.value.envelope.expiresAt == Some(r.value.expiresAt)
              && 0 <= r.value.notBefore && r.value.expiresAt - r.value.notBefore <= JOB_TTL_MS
  {
    if !ValidRoom(room) || !ValidJobId(id) || !body.wellFormed then None
    else if body.writerId.Some? && !ValidJobId(body.writerId.value) then None
    else if body.writerId.Some? && !Has(body.writerSourceKeyId, ValidDigest) then None
    else if body.writerId.None? && body.writerSourceKeyId.Some? then None
    else if !Has(body.notBefore, SafeInteger) || !Has(body.expiresAt, SafeInteger) then None
    else
      var notBefore, expiresAt := body.notBefore.value, body.expiresAt.value;
      if || notBefore < 0 || expiresAt <= now || expiresAt <= notBefore
         || expiresAt - notBefore > JOB_TTL_MS || expiresAt > now + JOB_TTL_MS
         || !Has(body.acceptanceHash, ValidDigest) || body.envelope.None? then None
      else
        var e := body.envelope.value;
        if || e.deliveryId != Some(id) || e.to != "machine" || !Has(e.recipientKeyId, ValidDigest)
           || e.expiresAt != Some(expiresAt) || !ValidEnvelope(e, room, now, Some(JOB_TTL_MS))
           || body.encodedBytes > JOB_BYTES then None
        else
          Some(Canonical(notBefore, expiresAt, body.acceptanceHash.value, e,
                         if body.writerId.Some? then Some((body.writerId.value, body.writerSourceKeyId.value)) else None))
  }

  /** Exactly which requests are accepted, and as what work: the writer's id with its source key. */
  lemma NormalizesExactly(room: string, id: string, body: Body, now: int)
    ensures var r := NormalizeJob(room, id, body, now);
            && (r.Some? <==>
                && ValidRoom(room) && ValidJobId(id) && body.wellFormed && body.encodedBytes <= 22000000
                && (if body.writerId.Some? then ValidJobId(body.writerId.value) && Has(body.writerSourceKeyId, ValidDigest)
                    else body.writerSourceKeyId.None?)
                && body.notBefore.Some? && body.expiresAt.Some?
                && 0 <= body.notBefore.value < body.expiresAt.value <= 9007199254740991
                && body.expiresAt.value <= body.notBefore.value + 2592000000
                && now < body.expiresAt.value <= now + 2592000000
                && Has(body.acceptanceHash, ValidDigest) && body.envelope.Some?
                && var e := body.envelope.value;
                   && e.deliveryId == Some(id) && e.to == "machine" && Has(e.recipientKeyId, ValidDigest)
                   && e.expiresAt == body.expiresAt && ValidEnvelope(e, room, now, Some(2592000000)))
            && (r.Some? ==>
                && r.value.notBefore == body.notBefore.value && r.value.expiresAt == body.expiresAt.value
                && Some(r.value.acceptanceHash) == body.acceptanceHash && Some(r.value.envelope) == body.envelope
                && (r.value.writer.Some? <==> body.writerId.Some?)
                && (r.value.writer.Some? ==> Some(r.value.writer.value.0) == body.writerId
                                             && Some(r.value.writer.value.1) == body.writerSourceKeyId))
  {
    hide ValidEnvelope, ValidDigest, ValidJobId, ValidRoom;
  }

  function NewJob(id: string, c: Canonical, bytes: nat, now: int): Job {
    Job(id, Queued, c.notBefore, c.expiresAt, c.acceptanceHash, c.envelope, c.writer, c, bytes, now, now, None, None, None)
  }

  function Routing(e: Envelope): Envelope { e.(box := None, nonce := None) }

  // ---- what every stored job satisfies ----

  /** The fields that name the work and never change once the job exists. */
  predicate SameIdentity(a: Job, b: Job) {
    && a.id == b.id && a.notBefore == b.notBefore && a.expiresAt == b.expiresAt
    && a.acceptanceHash == b.acceptanceHash && a.writer == b.writer && a.fingerprint == b.fingerprint
    && a.createdAt == b.createdAt && Routing(a.envelope) == Routing(b.envelope)
  }

  /** Strictly later states; only these moves exist. */
  predicate Forward(a: State, b: State) {
    || (a.Queued? && (b.Accepted? || b.Cancelled? || b.Expired?))
    || (a.Accepted? && (b.Completed? || b.Failed?))
    || (a.Failed? && b.Cancelled?)
  }

  /**
   * The lifecycle invariant: the encrypted box is there, with its positive size, exactly while
   * the payload is retained; a claim is recorded exactly once the job was accepted, at a time
   * within [notBefore, expiresAt); no result before a report; the job still carries the work it was
   * created with.
   */
  predicate JobInv(job: Job) {
    var c := job.fingerprint;
    && job.notBefore == c.notBefore && job.expiresAt == c.expiresAt && job.acceptanceHash == c.acceptanceHash
    && job.writer == c.writer && Routing(job.envelope) == Routing(c.envelope)
    && Has(c.envelope.box, ValidBox) && Has(c.envelope.recipientKeyId, ValidDigest)
    && job.createdAt < job.expiresAt && job.notBefore < job.expiresAt
    && (RetainsPayload(job) ==> job.envelope == c.envelope && 24 <= |c.envelope.box.value| <= job.bytes <= JOB_BYTES)
    && (!RetainsPayload(job) ==> job.envelope == Routing(c.envelope) && job.bytes == 0)
    && (job.state.Queued? ==> job.claimId.None? && job.updatedAt == job.createdAt)
    && (job.state.Expired? ==> job.claimId.None? && job.updatedAt == job.expiresAt)
    && (job.state.Accepted? ==> job.claimId.Some? && job.notBefore <= job.updatedAt < job.expiresAt)
    && (job.state.Failed? || job.state.Completed? ==> job.claimId.Some?)
    && (job.state.Queued? || job.state.Expired? || job.state.Accepted? ==> job.resultCode.None? && job.resultEnvelope.None?)
  }

  /** How a stored job may differ from one moment to a later one. */
  predicate Evolves(a: Job, b: Job) {
    && SameIdentity(a, b) && JobInv(b)
    && (a.state != b.state ==> Forward(a.state, b.state))
    && (a.state == b.state ==> a == b)
    && (a.claimId.Some? ==> b.claimId == a.claimId)
    && (a.state.Failed? ==> b.resultCode == a.resultCode && b.resultEnvelope == a.resultEnvelope)
    && (RetainsPayload(b) ==> b.bytes == a.bytes && b.envelope == a.envelope)
  }

  // ---- the transitions ----

  function RetireJob(job: Job, state: State, updatedAt: int): Job {
    job.(envelope := Routing(job.envelope), state := state, updatedAt := updatedAt, bytes := 0)
  }

  function ExpireJob(job: Job, now: int): (r: Job)
    ensures r != job <==> job.state.Queued? && job.expiresAt <= now
    ensures JobInv(job) ==> r == job || (Evolves(job, r) && r.state.Expired?)
    ensures r.state.Queued? ==> r == job && now < r.expiresAt
    ensures r.id == job.id
  {
    if job.state.Queued? && job.expiresAt <= now then RetireJob(job, Expired, job.expiresAt) else job
  }

  predicate ValidProof(job: Job, proof: Proof, proofHash: string) {
    && proof.recipientKeyId == job.envelope.recipientKeyId
    && Has(proof.token, ValidDigest) && proofHash == job.acceptanceHash
  }

  /** A grant needs the proof, records the one claim, and starts no earlier than due and before expiry. */
  function ClaimJob(job: Job, proof: Proof, now: int, proofHash: string): (r: Outcome)
    ensures r.Done? <==> && proof.recipientKeyId == job.envelope.recipientKeyId && Has(proof.token, ValidDigest)
                         && proofHash == job.acceptanceHash && Has(proof.claimId, ValidJobId)
                         && (|| (job.state.Queued? && job.notBefore <= now < job.expiresAt)
                             || (job.state.Accepted? && job.claimId == proof.claimId))
    ensures r.Done? ==> r.status == 200 && r.row.state.Accepted? && r.row.claimId == proof.claimId
    ensures r.Refused? ==>
              if && proof.recipientKeyId == job.envelope.recipientKeyId && Has(proof.token, ValidDigest)
                 && proofHash == job.acceptanceHash
              then r.status == (if Has(proof.claimId, ValidJobId) then 409 else 400)
              else r.status == 403
    ensures r.Done? && job.state.Queued? ==> job.notBefore <= now < job.expiresAt && r.row.updatedAt == now
    ensures r.Done? && !job.state.Queued? ==> r.row == job
    ensures r.Done? && JobInv(job) ==> r.row == job || Evolves(job, r.row)
  {
    if !ValidProof(job, proof, proofHash) then Refused(403)
    else
      var current := ExpireJob(job, now);
      if !Has(proof.claimId, ValidJobId) then Refused(400)
      else if current.state.Accepted? then
        if current.claimId == proof.claimId then Done(200, current) else Refused(409)
      else if !current.state.Queued? || current.notBefore > now then Refused(409)
      else Done(200, current.(state := Accepted, claimId := proof.claimId, updatedAt := now))
  }

  /** Only queued or failed work can be cancelled, and cancelling again changes nothing. */
  function CancelJob(job: Job, now: int): (r: Outcome)
    ensures r.Done? ==> r.row.state.Cancelled? && (job.state.Cancelled? ==> r.row == job)
    ensures r.Done? && !job.state.Cancelled? ==> r.row.updatedAt == now
    ensures r.status == if r.Done? then 200 else 409
    ensures r.Done? && JobInv(job) ==> r.row == job || Evolves(job, r.row)
    ensures r.Done? <==> job.state.Cancelled? || job.state.Failed? || (job.state.Queued? && now < job.expiresAt)
  {
    var current := ExpireJob(job, now);
    if current.state.Cancelled? then Done(200, current)
    else if !current.state.Queued? && !current.state.Failed? then Refused(409)
    else Done(200, RetireJob(current, Cancelled, now))
  }

  /** A result is for the writer's own key, in the job's room, current, and of at most 32,000 bytes. */
  lemma ResultMeans(job: Job, e: Envelope, bytes: nat, now: int)
    ensures ValidResult(job, e, bytes, now) ==>
              && job.writer.Some? && e.from == "machine" && e.to == "machine" && e.recipientKeyId == Some(job.writer.value.1)
              && e.room == job.envelope.room && bytes <= 32000
              && (e.expiresAt.Some? ==> now < e.expiresAt.value <= now + 2592000000)
    ensures && job.writer.Some? && e.from == "machine" && e.to == "machine" && e.recipientKeyId == Some(job.writer.value.1)
            && bytes <= 32000 && ValidEnvelope(e, job.envelope.room, now, Some(2592000000))
            ==> ValidResult(job, e, bytes, now)
  {
  }

  predicate ResultCode(s: string) {
    s in ["provider_unavailable", "policy_denied", "delivery_failed", "cancelled", "confirmation_required"]
  }

  predicate ValidResult(job: Job, e: Envelope, bytes: nat, now: int) {
    && job.writer.Some? && e.from == "machine" && e.to == "machine"
    && e.recipientKeyId == Some(job.writer.value.1)
    && ValidEnvelope(e, job.envelope.room, now, Some(JOB_TTL_MS)) && bytes <= RESULT_BYTES
  }

  /** Only the receiver that holds the claim can report an outcome, and the first report stands. */
  function FinishJob(job: Job, proof: Proof, now: int, proofHash: string): (r: Outcome)
    ensures r.Done? && job.state.Accepted? ==>
              && r.row.updatedAt == now && (r.row.state.Completed? <==> proof.state == "completed")
              && (JobInv(job) ==> r.row.resultCode == proof.resultCode && r.row.resultEnvelope == proof.resultEnvelope)
    ensures r.Done? <==>
            && proof.recipientKeyId == job.envelope.recipientKeyId && Has(proof.token, ValidDigest)
            && proofHash == job.acceptanceHash && Has(proof.claimId, ValidJobId) && job.claimId == proof.claimId
            && (proof.state == "completed" || proof.state == "failed")
            && (proof.resultCode.Some? ==>
                  proof.resultCode.value in {"provider_unavailable", "policy_denied", "delivery_failed", "cancelled", "confirmation_required"})
            && (|| job.state == (if proof.state == "completed" then Completed else Failed)
                || (job.state.Accepted?
                    && (proof.resultEnvelope.None? || ValidResult(job, proof.resultEnvelope.value, proof.resultBytes, now))))
    ensures r.Done? ==> r.status == 200 && r.row.claimId == job.claimId == proof.claimId
    ensures r.Done? ==> (r.row.state.Completed? || r.row.state.Failed?) && (job.state.Accepted? || r.row == job)
    ensures r.Done? && JobInv(job) ==> r.row == job || Evolves(job, r.row)
  {
    if !ValidProof(job, proof, proofHash) then Refused(403)
    else if job.claimId.None? then Refused(409)
    else if !Has(proof.claimId, ValidJobId) || job.claimId != proof.claimId then Refused(403)
    else if proof.state != "completed" && proof.state != "failed" then Refused(400)
    else if proof.resultCode.Some? && !ResultCode(proof.resultCode.value) then Refused(400)
    else
      var final := if proof.state == "completed" then Completed else Failed;
      if job.state == final then Done(200, job)
      else if !job.state.Accepted? then Refused(409)
      else if proof.resultEnvelope.Some? && !ValidResult(job, proof.resultEnvelope.value, proof.resultBytes, now)
      then Refused(400)
      else
        var result := if final.Completed? then RetireJob(job, Completed, now) else job.(state := Failed, updatedAt := now);
        Done(200, result.(resultCode := if proof.resultCode.Some? then proof.resultCode else result.resultCode,
                          resultEnvelope := if proof.resultEnvelope.Some? then proof.resultEnvelope else result.resultEnvelope))
  }

  /**
   * Why a report is refused: 403 for a wrong proof or a claim other than the job's, 409 for a job
   * without a claim or no longer open to the report, 400 for a malformed report.
   */
  lemma FinishRefused(job: Job, proof: Proof, now: int, proofHash: string)
    requires FinishJob(job, proof, now, proofHash).Refused?
    ensures var wellFormed := (proof.state == "completed" || proof.state == "failed")
                              && (proof.resultCode.Some? ==> ResultCode(proof.resultCode.value));
            FinishJob(job, proof, now, proofHash).status ==
            if || proof.recipientKeyId != job.envelope.recipientKeyId || !Has(proof.token, ValidDigest)
               || proofHash != job.acceptanceHash
               || (job.claimId.Some? && !(Has(proof.claimId, ValidJobId) && proof.claimId == job.claimId)) then 403
            else if job.claimId.None? || (wellFormed && !job.state.Accepted?) then 409
            else 400
  {
  }
}
