/** What the sender of a frame is told, said of the calls, write callbacks and closes of the whole run. */
module DeliveryAnswers {
  import opened Lists
  import opened SocketDelivery

  /** The bytes still in the air: of every call neither refused nor answered yet. */
  function InFlight(l: Ledger): nat { Sum(l.attempts, (a: Attempt) => if a.pending then a.bytes else 0) }

  /** The frame is taken: its socket is open, it fits behind what waits there and under the cap, and writing it does not fail. */
  predicate Taken(c: Limits, l: Ledger, socket: int, bytes: nat, buffered: nat, throws: bool) {
    && socket in l.open && !throws
    && (buffered == 0 || buffered + bytes <= c.maxBufferedBytes)
    && InFlight(l) + bytes <= c.maxPendingBytes
  }

  lemma {:induction false} ChargesAre(attempts: seq<Attempt>)
    ensures Outstanding(attempts) == Sum(attempts, (a: Attempt) => if a.pending then a.bytes else 0)
  {
    if attempts != [] {
      ChargesAre(attempts[1..]);
    }
  }

  /** A call adds one entry, in the air when it is taken and refused otherwise; a refusal ends an open socket. */
  lemma SentExactly(c: Limits, l: Ledger, socket: int, bytes: nat, buffered: nat, throws: bool)
    ensures var after, taken := Next(c, l, Send(socket, bytes, buffered, throws)), Taken(c, l, socket, bytes, buffered, throws);
            && after.attempts == l.attempts + [Attempt(socket, bytes, taken, if taken then [] else [false])]
            && after.open == if taken then l.open else l.open - {socket}
  {
    ChargesAre(l.attempts);
    RoomMeans(c, l.attempts, bytes, buffered);
    hide Outstanding, Sum, HasRoom;
  }

  /** The event that ends the flight: its write reports back, or its socket closes. */
  predicate Ends(e: Event, socket: int, id: nat) { e == Closed(socket) || (e.Written? && e.id == id) }

  lemma LedgerStep(c: Limits, open: set<int>, run: seq<Event>, k: nat)
    requires k < |run|
    ensures Ledgers(c, open, run)[k + 1] == Next(c, Ledgers(c, open, run)[k], run[k])
  {
    hide Next;
    assert StepsAt(c, run, Ledgers(c, open, run), k);
  }

  lemma StepInAir(c: Limits, l: Ledger, e: Event, id: nat)
    requires id < |l.attempts| && l.attempts[id].pending
    ensures id < |Next(c, l, e).attempts|
    ensures Next(c, l, e).attempts[id] ==
            if !Ends(e, l.attempts[id].socket, id) then l.attempts[id]
            else l.attempts[id].(pending := false,
                                 outcomes := l.attempts[id].outcomes + [e == Written(id, false) && l.attempts[id].socket in l.open])
  {
    hide HasRoom;
  }

  lemma {:induction false} InAirUntil(c: Limits, open: set<int>, run: seq<Event>, from: nat, k: nat, id: nat, a: Attempt)
    requires from <= k <= |run| && a.pending
    requires id < |Ledgers(c, open, run)[from].attempts| && Ledgers(c, open, run)[from].attempts[id] == a
    requires forall m :: from <= m < k ==> !Ends(run[m], a.socket, id)
    ensures id < |Ledgers(c, open, run)[k].attempts| && Ledgers(c, open, run)[k].attempts[id] == a
    decreases k
  {
    hide Next, Ledgers, Ends;
    if from < k {
      InAirUntil(c, open, run, from, k - 1, id, a);
      LedgerStep(c, open, run, k - 1);
      StepInAir(c, Ledgers(c, open, run)[k - 1], run[k - 1], id);
    }
  }

  /**
   * The answer to the `id`-th call, at any later point of the run. A frame not taken was answered
   * false at once. A taken one has no answer until its write reports back or its socket closes, and
   * from then on the one answer which the first of these gave: true for a write that did not fail on
   * a socket still open.
   */
  lemma AnsweredExactly(c: Limits, open: set<int>, run: seq<Event>, at: nat, k: nat)
    requires at < k <= |run| && run[at].Send?
    ensures var h := Ledgers(c, open, run);
            var id, s := |h[at].attempts|, run[at].socket;
            && id < |h[k].attempts| && h[k].attempts[id].socket == s && h[k].attempts[id].bytes == run[at].bytes
            && if !Taken(c, h[at], s, run[at].bytes, run[at].buffered, run[at].throws) then h[k].attempts[id].outcomes == [false]
               else if forall m :: at < m < k ==> !Ends(run[m], s, id) then h[k].attempts[id].pending && h[k].attempts[id].outcomes == []
               else exists m :: at < m < k && Ends(run[m], s, id) && (forall n :: at < n < m ==> !Ends(run[n], s, id))
                                && h[k].attempts[id].outcomes == [run[m] == Written(id, false) && s in h[m].open]
  {
    var h := Ledgers(c, open, run);
    var id, s := |h[at].attempts|, run[at].socket;
    LedgerStep(c, open, run, at);
    SentExactly(c, h[at], s, run[at].bytes, run[at].buffered, run[at].throws);
    var taken := Taken(c, h[at], s, run[at].bytes, run[at].buffered, run[at].throws);
    var a := Attempt(s, run[at].bytes, taken, if taken then [] else [false]);
    assert h[at + 1].attempts[id] == a;
    hide Next, Ledgers, Ends, Taken;
    AnswerLasts(c, open, run, at + 1, k, id);
    if taken {
      if forall m :: at < m < k ==> !Ends(run[m], s, id) {
        InAirUntil(c, open, run, at + 1, k, id, a);
      } else {
        var m := FirstEnd(run, at + 1, k, s, id);
        InAirUntil(c, open, run, at + 1, m, id, a);
        LedgerStep(c, open, run, m);
        StepInAir(c, h[m], run[m], id);
        AnswerLasts(c, open, run, m + 1, k, id);
      }
    }
  }

  lemma {:induction false} FirstEnd(run: seq<Event>, from: nat, k: nat, s: int, id: nat) returns (m: nat)
    requires from <= k <= |run| && exists n :: from <= n < k && Ends(run[n], s, id)
    ensures from <= m < k && Ends(run[m], s, id) && forall n :: from <= n < m ==> !Ends(run[n], s, id)
    decreases k - from
  {
    m := from;
    if !Ends(run[from], s, id) {
      m := FirstEnd(run, from + 1, k, s, id);
    }
  }
}
