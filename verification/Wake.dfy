/**
 * Background wakes of one room: deduplicated, coalesced, spaced and retried, with the record
 * persisted before every send. A crash may fall between any two steps.
 */
module Wake {
  import opened Lists
  import opened Wire

  const WAKE_INTERVAL_MS := 60000
  const WAKE_HISTORY_LIMIT := 256
  const DEFAULT_TTL_MS := 15 * 60000
  const MAX_ATTEMPTS := 3

  /** What a wake receipt identifies; its stored key is the SHA-256 of this, taken to be injective. */
  datatype Identity =
    | Delivery(senderId: string, recipient: string, deliveryId: string)
    | Ciphertext(senderId: string, recipient: string, nonce: Option<string>, box: Option<string>)

  datatype Receipt = Receipt(key: Identity, expiresAt: int)
  datatype Pending = Pending(expiresAt: int, attempts: nat)

  /** The persisted record of a room. */
  datatype Record = Record(recent: seq<Receipt>, pending: Option<Pending>, nextAt: Option<int>, lastSentAt: Option<int>)

  function IdentityOf(e: Envelope): Identity {
    var recipient := if e.recipientKeyId.Some? then e.recipientKeyId.value else "";
    if e.deliveryId.Some? && e.deliveryId.value != "" then Delivery(e.senderId, recipient, e.deliveryId.value)
    else Ciphertext(e.senderId, recipient, e.nonce, e.box)
  }

  function ExpiryOf(e: Envelope, now: int): int {
    if e.expiresAt.Some? then e.expiresAt.value else now + DEFAULT_TTL_MS
  }

  function Larger(a: int, b: int): int { if a < b then b else a }

  function LiveReceipt(now: int): Receipt -> bool { (r: Receipt) => r.expiresAt > now }

  function LastOf(s: seq<Receipt>, n: nat): seq<Receipt> { if |s| <= n then s else s[|s| - n..] }

  function EmptyRecord(): Record { Record([], None, None, None) }
  function Current(stored: Option<Record>): Record { if stored.Some? then stored.value else EmptyRecord() }

  /** A wake that has not expired and is not among the unexpired receipts. */
  predicate IsNew(stored: Option<Record>, key: Identity, expiresAt: int, now: int) {
    expiresAt > now && forall r :: r in Current(stored).recent && r.expiresAt > now ==> r.key != key
  }

  /** The record `request` writes for a new wake. */
  function Accepted(stored: Option<Record>, key: Identity, expiresAt: int, now: int): Record {
    var previous := Current(stored);
    var recent := Filter(previous.recent, LiveReceipt(now)) + [Receipt(key, expiresAt)];
    Record(LastOf(recent, WAKE_HISTORY_LIMIT),
           Some(Pending(Larger(expiresAt, if previous.pending.Some? then previous.pending.value.expiresAt else 0), 0)),
           Some(Larger(now, if previous.lastSentAt.Some? then previous.lastSentAt.value + WAKE_INTERVAL_MS else now)),
           previous.lastSentAt)
  }

  datatype Decision = Nothing | GiveUp(cleared: Record) | Claim(claimed: Record)

  function Cleared(r: Record): Record { r.(pending := None, nextAt := None) }

  /** The first half of `sendDue`, up to its first write. */
  function Decide(stored: Option<Record>, now: int): Decision {
    if stored.None? || stored.value.pending.None? then Nothing
    else
      var r := stored.value;
      if r.pending.value.expiresAt <= now || r.pending.value.attempts >= MAX_ATTEMPTS then GiveUp(Cleared(r))
      else if r.nextAt.Some? && r.nextAt.value > now then Nothing
      else Claim(r.(lastSentAt := Some(now), nextAt := Some(now + WAKE_INTERVAL_MS),
                    pending := Some(r.pending.value.(attempts := r.pending.value.attempts + 1))))
  }

  /** The second half: after the send, the pending wake is cleared on success or after the last attempt. */
  predicate Finished(claimed: Record, ok: bool) {
    ok || (claimed.pending.Some? && claimed.pending.value.attempts >= MAX_ATTEMPTS)
  }

  /** `nextAt`. */
  function NextAt(stored: Option<Record>): Option<int> {
    if stored.Some? && stored.value.pending.Some? then
      var expiry := stored.value.pending.value.expiresAt;
      // A missing `nextAt` counts as 0 in the source's `Math.min`.
      var next := if stored.value.nextAt.Some? then stored.value.nextAt.value else 0;
      Some(if next < expiry then next else expiry)
    else None
  }

  /** The row `purgeExpiredPairings` deletes: nothing pending and no unexpired receipt. */
  predicate Disposable(stored: Option<Record>, now: int) {
    stored.Some? && stored.value.pending.None? && forall r :: r in stored.value.recent ==> r.expiresAt <= now
  }

  /**
   * A new wake joins whatever is pending: from its acceptance on, a send is due exactly from a
   * minute after the last claim, and as long as the latest of the joined wakes has not expired.
   */
  lemma JoinedWakeDue(stored: Option<Record>, key: Identity, expiresAt: int, now: int, t: int)
    requires 0 <= now <= t
    ensures Decide(Some(Accepted(stored, key, expiresAt, now)), t).Claim? <==>
            && (t < expiresAt || (Current(stored).pending.Some? && t < Current(stored).pending.value.expiresAt))
            && (Current(stored).lastSentAt.Some? ==> Current(stored).lastSentAt.value + WAKE_INTERVAL_MS <= t)
  {
  }

  // ---- the protocol, one persisted write or one send at a time ----

  /** What the running process is in the middle of; a crash forgets it. */
  datatype Phase = Idle | Claimed(record: Record, claim: int) | Sent(record: Record)

  datatype Acceptance = Acceptance(key: Identity, expiresAt: int, at: int)

  /** A send, with the time its claim was stamped and the time it went out. */
  datatype Sending = Sending(claim: int, at: int)

  /** One room: what is persisted, where the process is, and everything that has happened. */
  datatype World = World(stored: Option<Record>, phase: Phase, accepted: seq<Acceptance>, claims: seq<int>, sends: seq<Sending>)

  datatype Move = Request(key: Identity, expiresAt: int) | SendDue | Send | Settle(ok: bool) | Crash | Purge

  datatype Event = Event(now: int, move: Move)

  function Start(): World { World(None, Idle, [], [], []) }

  function Next(w: World, e: Event): World {
    match e.move
    case Request(key, expiresAt) =>
      if w.phase.Idle? && IsNew(w.stored, key, expiresAt, e.now) then
        w.(stored := Some(Accepted(w.stored, key, expiresAt, e.now)),
           accepted := w.accepted + [Acceptance(key, expiresAt, e.now)])
      else w
    case SendDue =>
      if !w.phase.Idle? then w
      else
        var d := Decide(w.stored, e.now);
        if d.Nothing? then w
        else if d.GiveUp? then w.(stored := Some(d.cleared))
        else w.(stored := Some(d.claimed), phase := Claimed(d.claimed, e.now), claims := w.claims + [e.now])
    case Send =>
      if w.phase.Claimed? then
        w.(phase := Sent(w.phase.record), sends := w.sends + [Sending(w.phase.claim, e.now)])
      else w
    case Settle(ok) =>
      if w.phase.Sent? then
        w.(phase := Idle, stored := if Finished(w.phase.record, ok) then Some(Cleared(w.phase.record)) else w.stored)
      else w
    case Crash => w.(phase := Idle)
    case Purge => if Disposable(w.stored, e.now) then w.(stored := None) else w
  }

  // ---- what every step keeps ----

  predicate InOrder(run: seq<Event>) { forall i, j :: 0 <= i < j < |run| ==> run[i].now <= run[j].now }

  function KeyOf(r: Receipt): Identity { r.key }

  predicate DistinctKeys(recent: seq<Receipt>) { UniqueBy(recent, KeyOf) }

  predicate SoundRecord(r: Record) {
    && |r.recent| <= WAKE_HISTORY_LIMIT && DistinctKeys(r.recent)
    && (r.pending.Some? ==> r.nextAt.Some? && r.pending.value.attempts <= MAX_ATTEMPTS
                            && (r.lastSentAt.Some? ==> r.lastSentAt.value + WAKE_INTERVAL_MS <= r.nextAt.value))
  }

  /** The record in storage is sound, stamped with the last claim, and is the one being sent for. */
  predicate SoundWorld(w: World) {
    && (w.stored.Some? ==> SoundRecord(w.stored.value))
    && (w.stored.Some? && w.stored.value.lastSentAt.Some? ==>
          w.claims != [] && w.stored.value.lastSentAt.value == w.claims[|w.claims| - 1])
    && (!w.phase.Idle? ==> w.stored == Some(w.phase.record) && w.phase.record.pending.Some? && w.phase.record.lastSentAt.Some?)
    && (!w.phase.Idle? ==> w.phase.record.pending.value.attempts > 0
                           && w.phase.record.nextAt == Some(w.phase.record.lastSentAt.value + WAKE_INTERVAL_MS))
    && (w.phase.Claimed? ==> w.phase.record.lastSentAt == Some(w.phase.claim))
  }

  lemma LastDistinct(kept: seq<Receipt>, n: nat)
    requires DistinctKeys(kept)
    ensures DistinctKeys(LastOf(kept, n))
  {
    var at := |kept| - |LastOf(kept, n)|;
    forall i, j | 0 <= i < j < |LastOf(kept, n)| ensures KeyOf(LastOf(kept, n)[i]) != KeyOf(LastOf(kept, n)[j]) {
      assert KeyOf(kept[at + i]) != KeyOf(kept[at + j]);
    }
  }

  lemma AcceptedSound(stored: Option<Record>, key: Identity, expiresAt: int, now: int)
    requires stored.Some? ==> SoundRecord(stored.value)
    requires IsNew(stored, key, expiresAt, now)
    ensures SoundRecord(Accepted(stored, key, expiresAt, now))
  {
    hide UniqueBy;
    var kept := Filter(Current(stored).recent, LiveReceipt(now));
    NoKeys();
    FilterUnique(Current(stored).recent, LiveReceipt(now), KeyOf);
    AppendUnique(kept, Receipt(key, expiresAt), KeyOf);
    LastDistinct(kept + [Receipt(key, expiresAt)], WAKE_HISTORY_LIMIT);
  }

  lemma NoKeys()
    ensures DistinctKeys([])
  {
  }

  lemma StepSound(w: World, e: Event)
    requires SoundWorld(w)
    ensures SoundWorld(Next(w, e))
  {
    if e.move.Request? && IsNew(w.stored, e.move.key, e.move.expiresAt, e.now) {
      AcceptedSound(w.stored, e.move.key, e.move.expiresAt, e.now);
    }
  }

  // ---- spacing ----

  function LastClaim(w: World): int
    requires w.claims != []
  {
    w.claims[|w.claims| - 1]
  }

  /** Each claim comes at least a minute after every earlier one. */
  predicate ClaimsApart(claims: seq<int>) {
    forall i, j :: 0 <= i < j < |claims| ==> claims[i] + WAKE_INTERVAL_MS <= claims[j]
  }

  /** Each send goes out after its claim, and the claims of any two sends are a minute apart. */
  predicate SendsApart(sends: seq<Sending>) {
    && (forall i :: 0 <= i < |sends| ==> sends[i].claim <= sends[i].at)
    && (forall i, j :: 0 <= i < j < |sends| ==>
          sends[i].claim + WAKE_INTERVAL_MS <= sends[j].claim && sends[i].at <= sends[j].at)
  }

  /** Claims are a minute apart, and whatever forgot the last claim did so no sooner than a minute after it. */
  predicate SpacedClaims(w: World, now: int) {
    && ClaimsApart(w.claims)
    && (w.claims != [] ==> (w.stored.Some? && w.stored.value.lastSentAt == Some(LastClaim(w)))
                           || LastClaim(w) + WAKE_INTERVAL_MS <= now)
    && (w.stored.Some? && w.stored.value.pending.Some? && w.claims != [] ==>
          w.stored.value.nextAt.Some? && LastClaim(w) + WAKE_INTERVAL_MS <= w.stored.value.nextAt.value)
    && (w.phase.Claimed? ==> w.claims != [] && w.phase.claim == LastClaim(w) <= now)
  }

  predicate SpacedSends(w: World, now: int) {
    && SendsApart(w.sends)
    && (w.sends != [] ==> w.claims != [] && w.sends[|w.sends| - 1].claim <= LastClaim(w) && w.sends[|w.sends| - 1].at <= now)
    && (w.phase.Claimed? && w.sends != [] ==> w.sends[|w.sends| - 1].claim + WAKE_INTERVAL_MS <= w.phase.claim)
  }

  /** A purge that forgets a claim less than a minute old. */
  predicate EarlyPurge(w: World, e: Event) {
    e.move.Purge? && Disposable(w.stored, e.now) && w.claims != [] && e.now < LastClaim(w) + WAKE_INTERVAL_MS
  }

  lemma ClaimsApartAppend(claims: seq<int>, claim: int)
    requires ClaimsApart(claims) && (claims != [] ==> claims[|claims| - 1] + WAKE_INTERVAL_MS <= claim)
    ensures ClaimsApart(claims + [claim])
  {
  }

  lemma SendsApartAppend(sends: seq<Sending>, s: Sending)
    requires SendsApart(sends) && s.claim <= s.at
    requires sends != [] ==> sends[|sends| - 1].claim + WAKE_INTERVAL_MS <= s.claim && sends[|sends| - 1].at <= s.at
    ensures SendsApart(sends + [s])
  {
  }

  lemma StepSpacedClaims(w: World, before: int, e: Event)
    requires SoundWorld(w) && SpacedClaims(w, before) && before <= e.now && !EarlyPurge(w, e)
    ensures SpacedClaims(Next(w, e), e.now)
  {
    hide ClaimsApart, DistinctKeys, IsNew, LastOf, Disposable;
    if Next(w, e).claims != w.claims {
      ClaimsApartAppend(w.claims, e.now);
    }
  }

  lemma StepSpacedSends(w: World, before: int, e: Event)
    requires SoundWorld(w) && SpacedClaims(w, before) && SpacedSends(w, before) && before <= e.now && !EarlyPurge(w, e)
    ensures SpacedSends(Next(w, e), e.now)
  {
    hide ClaimsApart, SendsApart;
    if Next(w, e).sends != w.sends {
      SendsApartAppend(w.sends, Sending(w.phase.claim, e.now));
    }
  }

  // ---- retry budget ----

  function AttemptsLeft(stored: Option<Record>): int {
    if stored.Some? && stored.value.pending.Some? then MAX_ATTEMPTS - stored.value.pending.value.attempts else 0
  }

  /** Claims made and claims still possible never exceed three per accepted wake; each send has its own claim. */
  predicate WithinBudget(w: World) {
    && |w.claims| + AttemptsLeft(w.stored) <= MAX_ATTEMPTS * |w.accepted|
    && |w.sends| + (if w.phase.Claimed? then 1 else 0) <= |w.claims|
  }

  lemma StepWithinBudget(w: World, e: Event)
    requires SoundWorld(w) && WithinBudget(w)
    ensures WithinBudget(Next(w, e))
  {
  }

  // ---- deduplication ----

  /** `r` is in `recent` with at most `later` receipts behind it. */
  ghost predicate Near(recent: seq<Receipt>, r: Receipt, later: int) {
    exists p :: 0 <= p < |recent| && recent[p] == r && |recent| - 1 - p <= later
  }

  /** Every unexpired wake among the last 256 accepted still has its receipt, in its place. */
  ghost predicate Remembers(w: World, now: int) {
    forall i :: 0 <= i < |w.accepted| && w.accepted[i].expiresAt > now && |w.accepted| - i <= WAKE_HISTORY_LIMIT ==>
      w.stored.Some? && Near(w.stored.value.recent, Receipt(w.accepted[i].key, w.accepted[i].expiresAt), |w.accepted| - 1 - i)
  }

  lemma NearAfterAccept(recent: seq<Receipt>, r: Receipt, later: nat, newest: Receipt, now: int)
    requires Near(recent, r, later) && r.expiresAt > now && later + 1 < WAKE_HISTORY_LIMIT
    ensures Near(LastOf(Filter(recent, LiveReceipt(now)) + [newest], WAKE_HISTORY_LIMIT), r, later + 1)
  {
    var p :| 0 <= p < |recent| && recent[p] == r && |recent| - 1 - p <= later;
    var live := LiveReceipt(now);
    var head, tail := recent[..p], recent[p + 1..];
    assert recent == head + [r] + tail;
    FilterAround(head, r, tail, live);
    assert |Filter(tail, live)| <= |tail|;
    LastNear(Filter(head, live), r, Filter(tail, live) + [newest], later + 1);
    assert Filter(recent, live) + [newest] == Filter(head, live) + [r] + (Filter(tail, live) + [newest]);
  }

  lemma LastNear(head: seq<Receipt>, r: Receipt, tail: seq<Receipt>, later: nat)
    requires |tail| <= later < WAKE_HISTORY_LIMIT
    ensures Near(LastOf(head + [r] + tail, WAKE_HISTORY_LIMIT), r, later)
  {
    var all := head + [r] + tail;
    var last := LastOf(all, WAKE_HISTORY_LIMIT);
    assert all[|head|] == r;
    assert last[|head| - (|all| - |last|)] == r;
  }

  lemma StepRemembers(w: World, before: int, e: Event)
    requires SoundWorld(w) && Remembers(w, before) && before <= e.now
    ensures Remembers(Next(w, e), e.now)
  {
    hide SoundRecord;
    var after := Next(w, e);
    forall i | 0 <= i < |after.accepted| && after.accepted[i].expiresAt > e.now && |after.accepted| - i <= WAKE_HISTORY_LIMIT
      ensures after.stored.Some? && Near(after.stored.value.recent, Receipt(after.accepted[i].key, after.accepted[i].expiresAt), |after.accepted| - 1 - i)
    {
      RemembersOne(w, e, i);
    }
  }

  lemma RemembersOne(w: World, e: Event, i: nat)
    requires SoundWorld(w)
    requires i < |Next(w, e).accepted| && Next(w, e).accepted[i].expiresAt > e.now
    requires |Next(w, e).accepted| - i <= WAKE_HISTORY_LIMIT
    requires i < |w.accepted| ==>
               && w.stored.Some?
               && Near(w.stored.value.recent, Receipt(w.accepted[i].key, w.accepted[i].expiresAt), |w.accepted| - 1 - i)
    ensures var after := Next(w, e);
            && after.stored.Some?
            && Near(after.stored.value.recent, Receipt(after.accepted[i].key, after.accepted[i].expiresAt), |after.accepted| - 1 - i)
  {
    hide SoundRecord, Near;
    var after := Next(w, e);
    var r := Receipt(after.accepted[i].key, after.accepted[i].expiresAt);
    if |after.accepted| > |w.accepted| {
      var newest := Receipt(e.move.key, e.move.expiresAt);
      if i < |w.accepted| {
        NearAfterAccept(w.stored.value.recent, r, |w.accepted| - 1 - i, newest, e.now);
      } else {
        NewestIsNear(Filter(Current(w.stored).recent, LiveReceipt(e.now)), newest);
      }
    } else {
      NearIsKept(w.stored, r, |w.accepted| - 1 - i, e.now);
    }
  }

  lemma NewestIsNear(kept: seq<Receipt>, newest: Receipt)
    ensures Near(LastOf(kept + [newest], WAKE_HISTORY_LIMIT), newest, 0)
  {
    var last := LastOf(kept + [newest], WAKE_HISTORY_LIMIT);
    assert last[|last| - 1] == newest;
  }

  /** A room with an unexpired receipt is not purged. */
  lemma NearIsKept(stored: Option<Record>, r: Receipt, later: int, now: int)
    requires stored.Some? && Near(stored.value.recent, r, later) && r.expiresAt > now
    ensures !Disposable(stored, now)
  {
  }

  // ---- whole runs ----

  predicate StepsAt(run: seq<Event>, h: seq<World>, k: nat)
    requires k < |run| && |h| == |run| + 1
  {
    h[k + 1] == Next(h[k], run[k])
  }

  function Worlds(run: seq<Event>): (h: seq<World>)
    ensures |h| == |run| + 1 && h[0] == Start()
    ensures forall k :: 0 <= k < |run| ==> StepsAt(run, h, k)
  {
    if run == [] then [Start()] else
      var n := |run| - 1;
      var h := Worlds(run[..n]);
      var r := h + [Next(h[n], run[n])];
      assert forall k :: 0 <= k < n ==> StepsAt(run, r, k) by {
        forall k | 0 <= k < n ensures StepsAt(run, r, k) {
          assert StepsAt(run[..n], h, k);
        }
      }
      r
  }

  /** In every reachable state the receipts are distinct and at most 256, and the retry budget holds. */
  lemma {:induction false} ReachableWorld(run: seq<Event>, k: nat)
    requires k <= |run|
    ensures SoundWorld(Worlds(run)[k]) && WithinBudget(Worlds(run)[k])
    ensures |Worlds(run)[k].sends| <= MAX_ATTEMPTS * |Worlds(run)[k].accepted|
  {
    if k > 0 {
      hide Next, SoundRecord;
      ReachableWorld(run, k - 1);
      assert StepsAt(run, Worlds(run), k - 1);
      StepSound(Worlds(run)[k - 1], run[k - 1]);
      StepWithinBudget(Worlds(run)[k - 1], run[k - 1]);
    }
  }

  lemma {:induction false} SpacedAlong(run: seq<Event>, k: nat)
    requires InOrder(run) && 0 < k <= |run|
    requires forall i :: 0 <= i < k ==> !EarlyPurge(Worlds(run)[i], run[i])
    ensures SpacedClaims(Worlds(run)[k], run[k - 1].now) && SpacedSends(Worlds(run)[k], run[k - 1].now)
  {
    hide Next, SoundWorld, EarlyPurge, SpacedClaims, SpacedSends;
    var previous := Worlds(run)[k - 1];
    assert StepsAt(run, Worlds(run), k - 1);
    ReachableWorld(run, k - 1);
    if k > 1 {
      SpacedAlong(run, k - 1);
      StepSpacedClaims(previous, run[k - 2].now, run[k - 1]);
      StepSpacedSends(previous, run[k - 2].now, run[k - 1]);
    } else {
      StartsSpaced(run[0].now);
      StepSpacedClaims(previous, run[0].now, run[0]);
      StepSpacedSends(previous, run[0].now, run[0]);
    }
  }

  lemma StartsSpaced(now: int)
    ensures SpacedClaims(Start(), now) && SpacedSends(Start(), now)
  {
  }

  /**
   * If nothing purges the room within a minute of its last claim, claims are at least a minute
   * apart; two sends are then apart by at least a minute less the time the first one waited for
   * its record to be persisted.
   */
  lemma ClaimsAndSendsSpaced(run: seq<Event>)
    requires InOrder(run)
    requires forall i :: 0 <= i < |run| ==> !EarlyPurge(Worlds(run)[i], run[i])
    ensures var w := Worlds(run)[|run|];
            && (forall i, j :: 0 <= i < j < |w.claims| ==> w.claims[j] - w.claims[i] >= WAKE_INTERVAL_MS)
            && (forall i, j :: 0 <= i < j < |w.sends| ==>
                  w.sends[j].at - w.sends[i].at >= WAKE_INTERVAL_MS - (w.sends[i].at - w.sends[i].claim))
  {
    if run != [] {
      hide Next, EarlyPurge;
      SpacedAlong(run, |run|);
    }
  }

  /**
   * A wake accepted with expiry e is accepted again only from e on, or after at least 256 other
   * wakes were accepted in between; purging and crashing make no difference.
   */
  lemma {:induction false} RemembersAlong(run: seq<Event>, k: nat)
    requires InOrder(run) && 0 < k <= |run|
    ensures Remembers(Worlds(run)[k], run[k - 1].now)
  {
    hide Next, SoundWorld, Remembers;
    assert StepsAt(run, Worlds(run), k - 1);
    ReachableWorld(run, k - 1);
    if k > 1 {
      RemembersAlong(run, k - 1);
      StepRemembers(Worlds(run)[k - 1], run[k - 2].now, run[k - 1]);
    } else {
      NothingToRemember(run[0].now);
      StepRemembers(Start(), run[0].now, run[0]);
    }
  }

  lemma NothingToRemember(now: int)
    ensures Remembers(Start(), now)
  {
  }

  // ---- what the whole-run statements come to ----

  function End(run: seq<Event>): World { Worlds(run)[|run|] }

  lemma EndAfter(run: seq<Event>, e: Event)
    ensures End(run + [e]) == Next(End(run), e)
  {
  }

  /** Two acceptances of one key: the first has expired by the second, or 256 others lie between. */
  predicate Deduplicated(accepted: seq<Acceptance>) {
    forall i, j :: 0 <= i < j < |accepted| && accepted[i].key == accepted[j].key ==>
      accepted[i].expiresAt <= accepted[j].at || j - i - 1 >= WAKE_HISTORY_LIMIT
  }

  lemma StepDeduplicated(w: World, before: int, e: Event)
    requires Remembers(w, before) && before <= e.now && Deduplicated(w.accepted)
    ensures Deduplicated(Next(w, e).accepted)
  {
  }

  /**
   * Over any run with a clock that does not go back, through crashes and purges: a wake accepted
   * with expiry e is accepted again only from e on, or after at least 256 other acceptances.
   */
  lemma {:induction false} AcceptancesDeduplicated(run: seq<Event>, k: nat)
    requires InOrder(run) && k <= |run|
    ensures Deduplicated(Worlds(run)[k].accepted)
  {
    if k > 0 {
      hide Next, Remembers, Deduplicated;
      AcceptancesDeduplicated(run, k - 1);
      assert StepsAt(run, Worlds(run), k - 1);
      if k > 1 {
        RemembersAlong(run, k - 1);
        StepDeduplicated(Worlds(run)[k - 1], run[k - 2].now, run[k - 1]);
      } else {
        NothingToRemember(run[0].now);
        StepDeduplicated(Worlds(run)[0], run[0].now, run[0]);
      }
    } else {
      assert Worlds(run)[0] == Start();
    }
  }

  /**
   * The condition of ClaimsAndSendsSpaced is needed: after any purge that comes too early, the next
   * new wake is claimed less than a minute after the claim the purge forgot.
   */
  lemma EarlyPurgeBreaksSpacing(run: seq<Event>, e: Event, key: Identity)
    requires InOrder(run + [e]) && EarlyPurge(End(run), e)
    ensures var next := [e, Event(e.now, Request(key, e.now + 1)), Event(e.now, SendDue)];
            && InOrder(run + next)
            && !ClaimsApart(End(run + next).claims)
  {
    hide SoundRecord;
    ReachableWorld(run, |run|);
    var request, due := Event(e.now, Request(key, e.now + 1)), Event(e.now, SendDue);
    EndAfter(run, e);
    EndAfter(run + [e], request);
    EndAfter(run + [e] + [request], due);
    assert run + [e, request, due] == run + [e] + [request] + [due];
    assert End(run + [e]).stored.None? && End(run + [e]).phase.Idle?;
    var claims, before := End(run + [e, request, due]).claims, End(run).claims;
    assert claims == before + [e.now];
    assert claims[|before| - 1] + WAKE_INTERVAL_MS > claims[|before|];
    forall i, j | 0 <= i < j < |run| + 3
      ensures (run + [e, request, due])[i].now <= (run + [e, request, due])[j].now
    {
      assert forall n :: 0 <= n <= |run| ==> (run + [e])[n].now == (run + [e, request, due])[n].now;
      assert forall n :: 0 <= n <= |run| ==> (run + [e])[n].now <= (run + [e])[|run|].now;
    }
  }

  function DelayedRun(key: Identity, d: int): seq<Event> {
    [Event(0, Request(key, WAKE_INTERVAL_MS + 1)), Event(0, SendDue), Event(d, Send), Event(d, Settle(false)),
     Event(WAKE_INTERVAL_MS, SendDue), Event(WAKE_INTERVAL_MS, Send)]
  }

  function DelayedRecord(key: Identity, claim: int, attempts: nat): Record {
    Record([Receipt(key, WAKE_INTERVAL_MS + 1)], Some(Pending(WAKE_INTERVAL_MS + 1, attempts)),
           Some(claim + WAKE_INTERVAL_MS), Some(claim))
  }

  /** The bound on sends is tight: a send delayed by d is followed by another 60000 - d later. */
  lemma DelayedSendComesCloser(key: Identity, d: nat)
    requires d <= WAKE_INTERVAL_MS
    ensures InOrder(DelayedRun(key, d))
    ensures End(DelayedRun(key, d)).sends == [Sending(0, d), Sending(WAKE_INTERVAL_MS, WAKE_INTERVAL_MS)]
  {
    hide Next, InOrder;
    DelayedRunInOrder(key, d);
    var run := DelayedRun(key, d);
    var r1 := [] + [run[0]];
    var r2 := r1 + [run[1]];
    var r3 := r2 + [run[2]];
    var r4 := r3 + [run[3]];
    var r5 := r4 + [run[4]];
    EndAfter([], run[0]);
    EndAfter(r1, run[1]);
    EndAfter(r2, run[2]);
    EndAfter(r3, run[3]);
    EndAfter(r4, run[4]);
    EndAfter(r5, run[5]);
    assert End([]) == Start();
    DelayedClaim(key);
    DelayedSends(key, d, End(r2));
    assert run == r5 + [run[5]];
  }

  lemma DelayedRunInOrder(key: Identity, d: nat)
    requires d <= WAKE_INTERVAL_MS
    ensures InOrder(DelayedRun(key, d))
  {
  }

  lemma DelayedClaim(key: Identity)
    ensures var w := Next(Next(Start(), Event(0, Request(key, WAKE_INTERVAL_MS + 1))), Event(0, SendDue));
            && w.stored == Some(DelayedRecord(key, 0, 1)) && w.phase == Claimed(DelayedRecord(key, 0, 1), 0) && w.sends == []
  {
    var accepted := Accepted(None, key, WAKE_INTERVAL_MS + 1, 0);
    assert accepted.recent == [Receipt(key, WAKE_INTERVAL_MS + 1)];
  }

  lemma DelayedSends(key: Identity, d: int, w: World)
    requires w.stored == Some(DelayedRecord(key, 0, 1)) && w.phase == Claimed(DelayedRecord(key, 0, 1), 0) && w.sends == []
    ensures var failed := Next(Next(w, Event(d, Send)), Event(d, Settle(false)));
            Next(Next(failed, Event(WAKE_INTERVAL_MS, SendDue)), Event(WAKE_INTERVAL_MS, Send)).sends
            == [Sending(0, d), Sending(WAKE_INTERVAL_MS, WAKE_INTERVAL_MS)]
  {
  }

  // ---- the class, one uninterrupted action at a time ----

  /** What an uninterrupted `sendDue` leaves stored when the send answers `ok`. */
  function AfterSendDue(stored: Option<Record>, now: int, ok: bool): Option<Record> {
    match Decide(stored, now)
    case Nothing => stored
    case GiveUp(cleared) => Some(cleared)
    case Claim(claimed) => if Finished(claimed, ok) then Some(Cleared(claimed)) else Some(claimed)
  }

  function AfterRequest(stored: Option<Record>, e: Envelope, now: int): Option<Record> {
    if IsNew(stored, IdentityOf(e), ExpiryOf(e, now), now)
    then Some(Accepted(stored, IdentityOf(e), ExpiryOf(e, now), now)) else stored
  }

  /** An action that is not interrupted takes the protocol's steps one after the other. */
  lemma ActionsAreSteps(w: World, e: Envelope, now: int, sentAt: int, ok: bool)
    requires w.phase.Idle?
    ensures var due := Next(Next(Next(w, Event(now, SendDue)), Event(sentAt, Send)), Event(sentAt, Settle(ok)));
            && due.phase.Idle? && due.stored == AfterSendDue(w.stored, now, ok)
            && due.accepted == w.accepted
            && due.sends == if Decide(w.stored, now).Claim? then w.sends + [Sending(now, sentAt)] else w.sends
    ensures Next(w, Event(now, Request(IdentityOf(e), ExpiryOf(e, now)))).stored == AfterRequest(w.stored, e, now)
  {
  }

  function Stored(table: map<string, Record>, room: string): Option<Record> {
    if room in table then Some(table[room]) else None
  }

  class WakeDelivery {
    var table: map<string, Record>

    constructor ()
      ensures table == map[]
    {
      table := map[];
    }

    /** `ok` is what the push provider answers if asked. */
    method SendDue(room: string, now: int, ok: bool) returns (sent: bool)
      modifies this
      ensures sent <==> Decide(Stored(old(table), room), now).Claim?
      ensures Stored(table, room) == AfterSendDue(Stored(old(table), room), now, ok)
      ensures sent <==> && room in old(table) && old(table)[room].pending.Some?
                        && now < old(table)[room].pending.value.expiresAt && old(table)[room].pending.value.attempts < 3
                        && (old(table)[room].nextAt.None? || old(table)[room].nextAt.value <= now)
      ensures sent ==> room in table
      ensures sent ==>
                var was, next := old(table)[room], table[room];
                && next.recent == was.recent && next.lastSentAt == Some(now)
                && (if ok || was.pending.value.attempts == 2 then next.pending == None && next.nextAt == None
                    else next.pending == Some(Pending(was.pending.value.expiresAt, was.pending.value.attempts + 1))
                         && next.nextAt == Some(now + 60000))
      ensures !sent ==>
                if room in old(table) && old(table)[room].pending.Some?
                   && (old(table)[room].pending.value.expiresAt <= now || old(table)[room].pending.value.attempts >= 3)
                then table == old(table)[room := Record(old(table)[room].recent, None, None, old(table)[room].lastSentAt)]
                else table == old(table)
      ensures table - {room} == old(table) - {room}
    {
      sent := false;
      if room !in table || table[room].pending.None? {
        return;
      }
      var state := table[room];
      var pending := state.pending.value;
      if pending.expiresAt <= now || pending.attempts >= MAX_ATTEMPTS {
        table := table[room := state.(pending := None, nextAt := None)];
        return;
      }
      if state.nextAt.Some? && state.nextAt.value > now {
        return;
      }
      var claimed := state.(lastSentAt := Some(now), nextAt := Some(now + WAKE_INTERVAL_MS),
                            pending := Some(pending.(attempts := pending.attempts + 1)));
      table := table[room := claimed];
      sent := true;
      if ok || claimed.pending.value.attempts >= MAX_ATTEMPTS {
        table := table[room := claimed.(pending := None, nextAt := None)];
      }
    }

    /** An expired wake is dropped before anything is read; a duplicate still sends what is due. */
    method Request(room: string, e: Envelope, now: int, later: int, ok: bool) returns (sent: bool)
      requires now <= later
      modifies this
      ensures ExpiryOf(e, now) <= now ==> !sent && table == old(table)
      ensures ExpiryOf(e, now) > now ==>
                var requested := AfterRequest(Stored(old(table), room), e, now);
                && (sent <==> Decide(requested, later).Claim?)
                && Stored(table, room) == AfterSendDue(requested, later, ok)
      ensures table - {room} == old(table) - {room}
    {
      sent := false;
      var expiresAt := ExpiryOf(e, now);
      if expiresAt <= now {
        return;
      }
      var key := IdentityOf(e);
      var previous := if room in table then table[room] else Record([], None, None, None);
      var recent := Filter(previous.recent, (r: Receipt) => r.expiresAt > now);
      assert recent == Filter(previous.recent, LiveReceipt(now)) by {
        FilterCongruent(previous.recent, (r: Receipt) => r.expiresAt > now, LiveReceipt(now));
      }
      if !(exists r :: r in recent && r.key == key) {
        recent := recent + [Receipt(key, expiresAt)];
        var latest := if previous.pending.Some? then previous.pending.value.expiresAt else 0;
        var next := if previous.lastSentAt.Some? then previous.lastSentAt.value + WAKE_INTERVAL_MS else now;
        table := table[room := previous.(recent := LastOf(recent, WAKE_HISTORY_LIMIT),
                                         pending := Some(Pending(Larger(expiresAt, latest), 0)),
                                         nextAt := Some(Larger(now, next)))];
      }
      assert Stored(table, room) == AfterRequest(Stored(old(table), room), e, now);
      sent := SendDue(room, later, ok);
    }

    /** Every minute timer and alarm calls this; it is due exactly when `nextAt` has passed. */
    method NextDue(room: string) returns (at: Option<int>)
      ensures at == NextAt(Stored(table, room))
      ensures at.None? <==> room !in table || table[room].pending.None?
      ensures at.Some? ==> && at.value <= table[room].pending.value.expiresAt
                           && (table[room].nextAt.Some? ==> at.value <= table[room].nextAt.value)
                           && at.value in {table[room].pending.value.expiresAt,
                                           if table[room].nextAt.Some? then table[room].nextAt.value else 0}
    {
      if room !in table || table[room].pending.None? {
        return None;
      }
      var state := table[room];
      var next := if state.nextAt.Some? then state.nextAt.value else 0;
      return Some(if next < state.pending.value.expiresAt then next else state.pending.value.expiresAt);
    }

    /** The wake statement of `purgeExpiredPairings`. */
    method Purge(now: int)
      modifies this
      ensures forall room :: Stored(table, room) ==
                if Disposable(Stored(old(table), room), now) then None else Stored(old(table), room)
      ensures forall room :: room in table <==>
                && room in old(table)
                && (old(table)[room].pending.Some? || exists r :: r in old(table)[room].recent && now < r.expiresAt)
      ensures forall room :: room in table ==> table[room] == old(table)[room]
    {
      table := map room | room in table && !Disposable(Some(table[room]), now) :: table[room];
    }
  }

  /** `nextAt` is exact: `sendDue` does something from that time on and nothing before it. */
  lemma NextAtIsExact(stored: Option<Record>, now: int)
    requires stored.Some? ==> SoundRecord(stored.value)
    ensures Decide(stored, now).Nothing? <==>
            NextAt(stored).None? || (now < NextAt(stored).value && stored.value.pending.value.attempts < MAX_ATTEMPTS)
  {
  }
}
