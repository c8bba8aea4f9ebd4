/** Which acknowledgements are credited, said of the frames sent and received on the socket before. */
module CreditHistory {
  import opened Lists
  import opened FrameAdmission

  /** The `i`-th event sends a frame with this id, an id of 1 to 180 characters. */
  predicate SendsAt(run: seq<Event>, i: nat, id: string)
    requires i < |run|
  {
    run[i].Sent? && run[i].deliveryId == Some(id) && 1 <= |id| <= 180
  }

  /** A frame of at most 1,536 bytes with two fields that acknowledges this id. */
  predicate Acknowledges(f: Frame, id: string) {
    f.bytes <= 1536 && f.isAck && f.fields == 2 && f.deliveryId == Some(id) && 1 <= |id| <= 180
  }

  predicate AcksAt(run: seq<Event>, i: nat, id: string)
    requires i < |run|
  {
    run[i].Received? && Acknowledges(run[i].frame, id)
  }

  /** The id was sent at `i`, and neither sent again nor acknowledged before `k`. */
  predicate OpenSince(run: seq<Event>, i: nat, k: nat, id: string)
    requires i < k <= |run|
  {
    && SendsAt(run, i, id)
    && forall j :: i < j < k ==> !SendsAt(run, j, id) && !AcksAt(run, j, id)
  }

  /** The ids sent between `i` and `k` and not acknowledged by then. */
  function SentBetween(run: seq<Event>, i: nat, k: nat): set<string>
    requires i < k <= |run|
  {
    set j | i < j < k && run[j].Sent? && run[j].deliveryId.Some? && OpenSince(run, j, k, run[j].deliveryId.value)
      :: run[j].deliveryId.value
  }

  /** The id is open since `i`, and at no moment since were 512 ids sent after it and still open. */
  predicate KeptSince(run: seq<Event>, i: nat, k: nat, id: string)
    requires i < k <= |run|
  {
    && OpenSince(run, i, k, id)
    && forall m :: i < m <= k ==> |SentBetween(run, i, m)| < 512
  }

  lemma EventMeans(run: seq<Event>, k: nat, id: string)
    requires k < |run|
    ensures Issues(run[k], id) <==> SendsAt(run, k, id)
    ensures Answers(run[k], id) <==> AcksAt(run, k, id)
  {
  }

  lemma OpenStep(run: seq<Event>, i: nat, k: nat, id: string)
    requires i < k < |run|
    ensures OpenSince(run, i, k + 1, id) <==> OpenSince(run, i, k, id) && !SendsAt(run, k, id) && !AcksAt(run, k, id)
  {
  }

  /** What the grant stands for: a sending that is still open. */
  lemma {:induction false} GrantedMeans(run: seq<Event>, k: nat, id: string)
    requires k <= |run|
    ensures Granted(run[..k], id).Some? ==> exists i :: 0 <= i < k && OpenSince(run, i, k, id)
    ensures forall i :: 0 <= i < k && OpenSince(run, i, k, id) ==> Granted(run[..k], id) == Some(run[i].now + 30000)
  {
    if k > 0 {
      GrantedMeans(run, k - 1, id);
      EventMeans(run, k - 1, id);
      assert run[..k][..k - 1] == run[..k - 1];
      hide SendsAt, AcksAt, Issues, Answers;
      if Granted(run[..k], id).Some? {
        if SendsAt(run, k - 1, id) {
          assert OpenSince(run, k - 1, k, id);
        } else {
          var i :| 0 <= i < k - 1 && OpenSince(run, i, k - 1, id);
          OpenStep(run, i, k - 1, id);
        }
      }
      forall i | 0 <= i < k && OpenSince(run, i, k, id) ensures Granted(run[..k], id) == Some(run[i].now + 30000) {
        if i < k - 1 {
          OpenStep(run, i, k - 1, id);
        }
      }
    }
  }

  lemma BetweenMeans(run: seq<Event>, i: nat, k: nat, y: string)
    requires i < k <= |run|
    ensures y in SentBetween(run, i, k) <==> exists j :: i < j < k && OpenSince(run, j, k, y)
  {
    if j :| i < j < k && OpenSince(run, j, k, y) {
      assert run[j].deliveryId.value == y;
    }
  }

  lemma OpenLast(run: seq<Event>, k: nat, y: string)
    requires k < |run|
    ensures OpenSince(run, k, k + 1, y) <==> SendsAt(run, k, y)
  {
  }

  lemma BetweenStep(run: seq<Event>, i: nat, k: nat, y: string)
    requires i < k < |run|
    ensures y in SentBetween(run, i, k + 1) <==> SendsAt(run, k, y) || (y in SentBetween(run, i, k) && !AcksAt(run, k, y))
  {
    BetweenMeans(run, i, k, y);
    BetweenMeans(run, i, k + 1, y);
    OpenLast(run, k, y);
    hide SentBetween, OpenSince, SendsAt, AcksAt;
    forall j | i < j < k
      ensures OpenSince(run, j, k + 1, y) <==> OpenSince(run, j, k, y) && !SendsAt(run, k, y) && !AcksAt(run, k, y)
    {
      OpenStep(run, j, k, y);
    }
    if y in SentBetween(run, i, k) && !AcksAt(run, k, y) && !SendsAt(run, k, y) {
      var j :| i < j < k && OpenSince(run, j, k, y);
      assert OpenSince(run, j, k + 1, y);
    }
  }

  /** The ids behind an open one are those sent after it and still open. */
  lemma {:induction false} BehindMeans(run: seq<Event>, i: nat, k: nat, id: string)
    requires i < k <= |run| && OpenSince(run, i, k, id)
    ensures Behind(run[..k], id) == SentBetween(run, i, k)
    decreases k
  {
    assert run[..k][..k - 1] == run[..k - 1];
    EventMeans(run, k - 1, id);
    if k == i + 1 {
      assert SentBetween(run, i, k) == {};
    } else {
      OpenStep(run, i, k - 1, id);
      hide OpenSince, SentBetween;
      BehindMeans(run, i, k - 1, id);
      forall y ensures y in Behind(run[..k], id) <==> y in SentBetween(run, i, k) {
        BetweenStep(run, i, k - 1, y);
        BehindStep(run, k - 1, id, y);
      }
    }
  }

  lemma BehindStep(run: seq<Event>, k: nat, id: string, y: string)
    requires k < |run| && !SendsAt(run, k, id)
    ensures y in Behind(run[..k + 1], id) <==> SendsAt(run, k, y) || (y in Behind(run[..k], id) && !AcksAt(run, k, y))
  {
    assert run[..k + 1][..k] == run[..k];
    EventMeans(run, k, id);
  }

  lemma KeptStep(run: seq<Event>, i: nat, k: nat, id: string)
    requires i < k < |run|
    ensures KeptSince(run, i, k + 1, id) <==>
            KeptSince(run, i, k, id) && !SendsAt(run, k, id) && !AcksAt(run, k, id) && |SentBetween(run, i, k + 1)| < 512
  {
    OpenStep(run, i, k, id);
    hide OpenSince, SentBetween, SendsAt, AcksAt;
  }

  lemma KeptLast(run: seq<Event>, k: nat, id: string)
    requires k < |run|
    ensures KeptSince(run, k, k + 1, id) <==> SendsAt(run, k, id)
  {
    OpenLast(run, k, id);
    assert SentBetween(run, k, k + 1) == {};
    hide OpenSince, SendsAt, SentBetween;
  }

  /** What survives is what was kept since some sending. */
  lemma {:induction false} SurvivesMeans(run: seq<Event>, k: nat, id: string)
    requires k <= |run|
    ensures Survives(run[..k], id) <==> exists i :: 0 <= i < k && KeptSince(run, i, k, id)
  {
    if k > 0 {
      assert run[..k][..k - 1] == run[..k - 1];
      EventMeans(run, k - 1, id);
      KeptLast(run, k - 1, id);
      SurvivesMeans(run, k - 1, id);
      hide SendsAt, AcksAt, Issues, Answers, Behind, SentBetween;
      forall i | 0 <= i < k - 1
        ensures KeptSince(run, i, k, id) <==> KeptSince(run, i, k - 1, id) && !SendsAt(run, k - 1, id) && !AcksAt(run, k - 1, id)
                                              && |Behind(run[..k], id)| < 512
      {
        KeptStep(run, i, k - 1, id);
        if KeptSince(run, i, k - 1, id) && !SendsAt(run, k - 1, id) && !AcksAt(run, k - 1, id) {
          OpenStep(run, i, k - 1, id);
          BehindMeans(run, i, k, id);
        }
      }
      SurvivesStep(run, k - 1, id);
      hide KeptSince, Survives;
      if Survives(run[..k], id) && !SendsAt(run, k - 1, id) {
        var i :| 0 <= i < k - 1 && KeptSince(run, i, k - 1, id);
        assert KeptSince(run, i, k, id);
      }
    }
  }

  lemma SurvivesStep(run: seq<Event>, k: nat, id: string)
    requires k < |run|
    ensures Survives(run[..k + 1], id) <==>
            SendsAt(run, k, id) || (!AcksAt(run, k, id) && Survives(run[..k], id) && |Behind(run[..k + 1], id)| < 512)
  {
    assert run[..k + 1][..k] == run[..k];
    EventMeans(run, k, id);
  }

  /**
   * A frame is credited exactly when it acknowledges an id whose latest sending on this socket is
   * less than 30 seconds old, has not been acknowledged yet, and was never followed by 512 ids still
   * waiting for theirs.
   */
  lemma CreditedFromHistory(run: seq<Event>, f: Frame, now: int)
    ensures Credited(Held(run), f, now) <==>
            && f.deliveryId.Some? && Acknowledges(f, f.deliveryId.value)
            && exists i :: 0 <= i < |run| && KeptSince(run, i, |run|, f.deliveryId.value) && now < run[i].now + 30000
  {
    CreditedExactly(run, f, now);
    assert f.deliveryId.Some? ==> (IsAck(f) <==> Acknowledges(f, f.deliveryId.value));
    assert IsAck(f) ==> f.deliveryId.Some?;
    hide Credited, Held, IsAck, Acknowledges;
    if f.deliveryId.Some? {
      var id := f.deliveryId.value;
      assert run[..|run|] == run;
      SurvivesMeans(run, |run|, id);
      GrantedMeans(run, |run|, id);
      hide Survives, Granted, OpenSince;
      forall i | 0 <= i < |run| && KeptSince(run, i, |run|, id) ensures Granted(run, id) == Some(run[i].now + 30000) {
        assert OpenSince(run, i, |run|, id);
      }
    }
  }

  /** The frame of the `i`-th event is counted by the window: it was received and not credited. */
  predicate CountedAt(before: seq<Event>, run: seq<Event>, i: nat)
    requires i < |run|
  {
    run[i].Received? && !Credited(Held(before + run[..i]), run[i].frame, run[i].now)
  }

  /** The window sees every frame that is not credited, and no other, in order. */
  lemma {:induction false} CountedExactly(before: seq<Event>, run: seq<Event>) returns (at: seq<nat>)
    ensures |at| == |Unsolicited(before, run)|
    ensures forall a :: 0 <= a < |at| ==> at[a] < |run| && Unsolicited(before, run)[a] == run[at[a]].now
    ensures forall a, b :: 0 <= a < b < |at| ==> at[a] < at[b]
    ensures forall i :: 0 <= i < |run| ==> (i in at <==> CountedAt(before, run, i))
    decreases run
  {
    if run == [] {
      at := [];
    } else {
      var tail := CountedExactly(before + [run[0]], run[1..]);
      forall i | 0 < i < |run| ensures CountedAt(before, run, i) <==> CountedAt(before + [run[0]], run[1..], i - 1) {
        assert before + [run[0]] + run[1..][..i - 1] == before + run[..i];
      }
      var counted := CountedAt(before, run, 0);
      UnsolicitedFirst(before, run);
      hide CountedAt, Credited, Held, Unsolicited;
      at := Shifted(counted, tail, |run|);
    }
  }

  lemma UnsolicitedFirst(before: seq<Event>, run: seq<Event>)
    requires run != []
    ensures Unsolicited(before, run) ==
            (if CountedAt(before, run, 0) then [run[0].now] else []) + Unsolicited(before + [run[0]], run[1..])
  {
    assert before + run[..0] == before;
  }

  function Later(tail: seq<nat>): (r: seq<nat>)
    ensures |r| == |tail| && forall a :: 0 <= a < |tail| ==> r[a] == tail[a] + 1
  {
    seq(|tail|, a requires 0 <= a < |tail| => tail[a] + 1)
  }

  lemma LaterMeans(tail: seq<nat>, i: nat)
    ensures i in Later(tail) <==> i > 0 && i - 1 in tail
  {
    if i in Later(tail) {
      var a :| 0 <= a < |tail| && Later(tail)[a] == i;
      assert tail[a] == i - 1;
    }
    if i > 0 && i - 1 in tail {
      var a :| 0 <= a < |tail| && tail[a] == i - 1;
      assert Later(tail)[a] == i;
    }
  }

  /** The first position when it is counted, and those of the tail, one later. */
  lemma Shifted(counted: bool, tail: seq<nat>, n: nat) returns (at: seq<nat>)
    requires n > 0 && forall a :: 0 <= a < |tail| ==> tail[a] < n - 1
    requires forall a, b :: 0 <= a < b < |tail| ==> tail[a] < tail[b]
    ensures at == (if counted then [0] else []) + Later(tail)
    ensures forall a, b :: 0 <= a < b < |at| ==> at[a] < at[b]
    ensures forall a :: 0 <= a < |at| ==> at[a] < n
    ensures forall i :: 0 <= i < n ==> (i in at <==> if i == 0 then counted else i - 1 in tail)
  {
    at := (if counted then [0] else []) + Later(tail);
    forall i | 0 <= i < n ensures i in at <==> if i == 0 then counted else i - 1 in tail {
      LaterMeans(tail, i);
    }
  }
}
