/** What becomes of a wake: what is accepted, what a send leaves to do, and over whole runs. */
module WakeOutcomes {
  import opened Lists
  import opened Wire
  import opened Wake

  // ---- what is accepted ----

  function Id(o: Option<string>): string { if o.Some? then o.value else "" }

  /**
   * Two wakes are the same when sender and recipient are, and either both carry the same delivery id,
   * or neither carries one and their ciphertexts are the same.
   */
  lemma SameWake(a: Envelope, b: Envelope)
    ensures IdentityOf(a) == IdentityOf(b) <==>
            && a.senderId == b.senderId && Id(a.recipientKeyId) == Id(b.recipientKeyId)
            && Id(a.deliveryId) == Id(b.deliveryId)
            && (Id(a.deliveryId) == "" ==> a.nonce == b.nonce && a.box == b.box)
  {
  }

  /** The receipts a new wake leaves: the latest unexpired ones, at most 255, and its own. */
  lemma RememberedExactly(recent: seq<Receipt>, r: Receipt, now: int)
    ensures var live := Filter(recent, (x: Receipt) => now < x.expiresAt);
            LastOf(Filter(recent, LiveReceipt(now)) + [r], WAKE_HISTORY_LIMIT)
            == live[if |live| > 255 then |live| - 255 else 0..] + [r]
  {
    FilterCongruent(recent, LiveReceipt(now), (x: Receipt) => now < x.expiresAt);
    hide Filter;
  }

  lemma NewMeans(stored: Option<Record>, key: Identity, expiresAt: int, now: int)
    ensures IsNew(stored, key, expiresAt, now) <==>
            expiresAt > now && !exists r :: r in Current(stored).recent && now < r.expiresAt && r.key == key
  {
  }

  /**
   * What a request leaves stored. An expired wake, or one that repeats an unexpired receipt, changes
   * nothing. A new one is remembered last, with at most 255 unexpired receipts before it, joins what
   * is pending until the later expiry, starts three attempts afresh, and is due no sooner than a
   * minute after the last claim. Without an expiry of its own it lasts 15 minutes.
   */
  lemma RequestedExactly(stored: Option<Record>, e: Envelope, now: int)
    ensures var previous := if stored.Some? then stored.value else Record([], None, None, None);
            var expiresAt := if e.expiresAt.Some? then e.expiresAt.value else now + 900000;
            var live := Filter(previous.recent, (r: Receipt) => now < r.expiresAt);
            var after := AfterRequest(stored, e, now);
            if expiresAt <= now || exists r :: r in previous.recent && now < r.expiresAt && r.key == IdentityOf(e)
            then after == stored
            else
              && after.Some? && after.value.lastSentAt == previous.lastSentAt
              && after.value.recent == live[if |live| > 255 then |live| - 255 else 0..] + [Receipt(IdentityOf(e), expiresAt)]
              && Joins(previous, expiresAt, now, after.value)
  {
    var expiresAt := ExpiryOf(e, now);
    NewMeans(stored, IdentityOf(e), expiresAt, now);
    RememberedExactly(Current(stored).recent, Receipt(IdentityOf(e), expiresAt), now);
    hide IdentityOf, Filter, LastOf, IsNew;
  }

  /** What is pending when a wake has joined: three new attempts, until the later expiry, a minute after the last claim. */
  predicate Joins(previous: Record, expiresAt: int, now: int, after: Record) {
    && after.pending.Some? && after.pending.value.attempts == 0
    && expiresAt <= after.pending.value.expiresAt
    && (previous.pending.Some? ==> previous.pending.value.expiresAt <= after.pending.value.expiresAt)
    && after.pending.value.expiresAt in {expiresAt, if previous.pending.Some? then previous.pending.value.expiresAt else 0}
    && after.nextAt.Some? && now <= after.nextAt.value
    && (previous.lastSentAt.Some? ==> previous.lastSentAt.value + 60000 <= after.nextAt.value)
    && after.nextAt.value in {now, if previous.lastSentAt.Some? then previous.lastSentAt.value + 60000 else now}
  }

  // ---- what a send leaves to do, over whole runs ----

  /** One claim: it counts an attempt, keeps receipts and expiry, and stamps the record with its time. */
  predicate Claims(before: World, after: World, now: int) {
    && after.claims == before.claims + [now]
    && before.stored.Some? && before.stored.value.pending.Some?
    && now < before.stored.value.pending.value.expiresAt && before.stored.value.pending.value.attempts < 3
    && after.stored == Some(Record(before.stored.value.recent,
                                   Some(Pending(before.stored.value.pending.value.expiresAt,
                                                before.stored.value.pending.value.attempts + 1)),
                                   Some(now + 60000), Some(now)))
  }

  lemma ClaimStep(w: World, e: Event)
    requires Next(w, e).claims != w.claims
    ensures e.move == SendDue && Claims(w, Next(w, e), e.now)
  {
    match e.move {
      case SendDue =>
        var d := Decide(w.stored, e.now);
        assert d.Claim?;
      case _ =>
    }
  }

  lemma StepAt(run: seq<Event>, i: nat)
    requires i < |run|
    ensures Worlds(run)[i + 1] == Next(Worlds(run)[i], run[i])
  {
    hide Next;
    assert StepsAt(run, Worlds(run), i);
  }

  /** Only a due wake is claimed. */
  lemma ClaimedExactly(run: seq<Event>, i: nat)
    requires i < |run| && Worlds(run)[i + 1].claims != Worlds(run)[i].claims
    ensures run[i].move == SendDue && Claims(Worlds(run)[i], Worlds(run)[i + 1], run[i].now)
  {
    hide *;
    StepAt(run, i);
    ClaimStep(Worlds(run)[i], run[i]);
  }

  /**
   * The end of a send. If it was answered, or was the third attempt, nothing is pending any more. If
   * it failed before that, the wake stays pending as it was claimed; unless something else happens it
   * is claimed again exactly from a minute after its claim on, and before its expiry.
   */
  lemma SettledExactly(run: seq<Event>, i: nat, ok: bool, t: int)
    requires i < |run| && Worlds(run)[i].phase.Sent? && run[i].move == Settle(ok)
    ensures var before, after := Worlds(run)[i], Worlds(run)[i + 1];
            && before.stored.Some? && before.stored.value.pending.Some? && before.claims != [] && after.phase == Idle
            && var was, claim := before.stored.value, before.claims[|before.claims| - 1];
               if ok || was.pending.value.attempts >= 3
               then after.stored == Some(Record(was.recent, None, None, was.lastSentAt))
               else && after.stored == before.stored
                    && (Next(after, Event(t, SendDue)).claims == after.claims + [t]
                        <==> claim + 60000 <= t && t < was.pending.value.expiresAt)
  {
    ReachableWorld(run, i);
    assert StepsAt(run, Worlds(run), i);
    hide SoundRecord, WithinBudget, Worlds;
    var before := Worlds(run)[i];
    if before.claims != [] {
      GrowsExactly(before.claims, t);
    }
  }

  lemma GrowsExactly(claims: seq<int>, t: int)
    ensures claims != claims + [t]
  {
    assert |claims + [t]| == |claims| + 1;
  }

  /** Nothing is pending, and nothing is being sent. */
  predicate AtRest(w: World) { w.phase == Idle && (w.stored.Some? ==> w.stored.value.pending == None) }

  lemma RestLasts(w: World, e: Event)
    requires AtRest(w) && Next(w, e).accepted == w.accepted
    ensures AtRest(Next(w, e)) && Next(w, e).claims == w.claims && Next(w, e).sends == w.sends
  {
    hide IsNew, Disposable;
  }

  lemma AcceptedGrows(w: World, e: Event)
    ensures |w.accepted| <= |Next(w, e).accepted|
    ensures |w.accepted| == |Next(w, e).accepted| ==> Next(w, e).accepted == w.accepted
  {
    hide IsNew, Disposable;
  }

  lemma {:induction false} RestAlong(run: seq<Event>, i: nat, j: nat)
    requires i <= j <= |run| && AtRest(Worlds(run)[i])
    ensures |Worlds(run)[i].accepted| <= |Worlds(run)[j].accepted|
    ensures |Worlds(run)[i].accepted| == |Worlds(run)[j].accepted| ==>
              && AtRest(Worlds(run)[j]) && Worlds(run)[j].accepted == Worlds(run)[i].accepted
              && Worlds(run)[j].claims == Worlds(run)[i].claims && Worlds(run)[j].sends == Worlds(run)[i].sends
    decreases j
  {
    hide Next, AtRest, Worlds;
    if i < j {
      RestAlong(run, i, j - 1);
      assert StepsAt(run, Worlds(run), j - 1);
      AcceptedGrows(Worlds(run)[j - 1], run[j - 1]);
      if |Worlds(run)[i].accepted| == |Worlds(run)[j].accepted| {
        RestLasts(Worlds(run)[j - 1], run[j - 1]);
      }
    }
  }

  /**
   * A wake whose send was answered, or failed for the third time, is never sent again: through
   * crashes and purges, there is no other claim or send until another wake is accepted.
   */
  lemma SettledForGood(run: seq<Event>, i: nat, j: nat, ok: bool)
    requires i < j <= |run| && Worlds(run)[i].phase.Sent? && run[i].move == Settle(ok)
    requires ok || Worlds(run)[i].phase.record.pending.None? || Worlds(run)[i].phase.record.pending.value.attempts >= 3
    requires |Worlds(run)[j].accepted| == |Worlds(run)[i].accepted|
    ensures Worlds(run)[j].claims == Worlds(run)[i].claims && Worlds(run)[j].sends == Worlds(run)[i].sends
  {
    SettledExactly(run, i, ok, 0);
    ReachableWorld(run, i);
    assert StepsAt(run, Worlds(run), i);
    hide SoundRecord, WithinBudget, Worlds;
    assert AtRest(Worlds(run)[i + 1]);
    RestAlong(run, i + 1, j);
  }

  // ---- a request is refused only for a reason ----

  /** The receipt is that of a wake accepted before. */
  ghost predicate Witnessed(accepted: seq<Acceptance>, r: Receipt) {
    exists k :: 0 <= k < |accepted| && accepted[k].key == r.key && accepted[k].expiresAt == r.expiresAt
  }

  ghost predicate AllWitnessed(w: World) {
    w.stored.Some? ==> forall r :: r in w.stored.value.recent ==> Witnessed(w.accepted, r)
  }

  lemma WitnessedStill(accepted: seq<Acceptance>, a: Acceptance, r: Receipt)
    requires Witnessed(accepted, r) || (a.key == r.key && a.expiresAt == r.expiresAt)
    ensures Witnessed(accepted + [a], r)
  {
    if Witnessed(accepted, r) {
      var k :| 0 <= k < |accepted| && accepted[k].key == r.key && accepted[k].expiresAt == r.expiresAt;
      assert (accepted + [a])[k] == accepted[k];
    } else {
      assert (accepted + [a])[|accepted|] == a;
    }
  }

  lemma StepWitnessed(w: World, e: Event)
    requires SoundWorld(w) && AllWitnessed(w)
    ensures AllWitnessed(Next(w, e))
  {
    hide SoundRecord, Witnessed;
    var after := Next(w, e);
    if after.accepted != w.accepted {
      var a := Acceptance(e.move.key, e.move.expiresAt, e.now);
      forall r | r in after.stored.value.recent ensures Witnessed(after.accepted, r) {
        RecentIsOldOrNew(w.stored, e.move.key, e.move.expiresAt, e.now, r);
        WitnessedStill(w.accepted, a, r);
      }
    }
  }

  lemma RecentIsOldOrNew(stored: Option<Record>, key: Identity, expiresAt: int, now: int, r: Receipt)
    requires r in Accepted(stored, key, expiresAt, now).recent
    ensures r == Receipt(key, expiresAt) || (stored.Some? && r in stored.value.recent)
  {
  }

  lemma {:induction false} WitnessedAlong(run: seq<Event>, k: nat)
    requires k <= |run|
    ensures AllWitnessed(Worlds(run)[k])
  {
    if k > 0 {
      hide Next, AllWitnessed, SoundWorld;
      WitnessedAlong(run, k - 1);
      ReachableWorld(run, k - 1);
      assert StepsAt(run, Worlds(run), k - 1);
      StepWitnessed(Worlds(run)[k - 1], run[k - 1]);
    }
  }

  /** An unexpired wake that an idle process does not accept repeats one accepted before that has not expired either. */
  lemma RefusedOnlyIfKnown(run: seq<Event>, i: nat, key: Identity, expiresAt: int)
    requires i < |run| && run[i].move == Request(key, expiresAt) && run[i].now < expiresAt && Worlds(run)[i].phase == Idle
    ensures var before, after := Worlds(run)[i], Worlds(run)[i + 1];
            || after.accepted == before.accepted + [Acceptance(key, expiresAt, run[i].now)]
            || exists k :: 0 <= k < |before.accepted| && before.accepted[k].key == key && run[i].now < before.accepted[k].expiresAt
  {
    WitnessedAlong(run, i);
    assert StepsAt(run, Worlds(run), i);
    hide Worlds, Accepted;
    var before := Worlds(run)[i];
    NewMeans(before.stored, key, expiresAt, run[i].now);
    if !IsNew(before.stored, key, expiresAt, run[i].now) {
      var r :| r in Current(before.stored).recent && run[i].now < r.expiresAt && r.key == key;
      assert Witnessed(before.accepted, r);
    }
  }
}
