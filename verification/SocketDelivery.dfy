/**
 * In-flight bytes of the Node relay: every accepted frame is charged once, released once and
 * completed once, whatever the order of write callbacks, close events and failing sends.
 */
module SocketDelivery {
  import opened Lists

  datatype Limits = Limits(maxBufferedBytes: nat, maxPendingBytes: nat)

  /** One call of `send`: whether its bytes are still charged, and each answer its caller was given. */
  datatype Attempt = Attempt(socket: int, bytes: nat, pending: bool, outcomes: seq<bool>)

  /** Everything that was ever sent, and the sockets whose `readyState` is OPEN. */
  datatype Ledger = Ledger(attempts: seq<Attempt>, open: set<int>)

  datatype Event =
    | Send(socket: int, bytes: nat, buffered: nat, throws: bool)
    | Written(id: nat, failed: bool)
    | Closed(socket: int)

  function Charge(a: Attempt): nat { if a.pending then a.bytes else 0 }

  /** The bytes of every flight not yet released. */
  function Outstanding(attempts: seq<Attempt>): nat { Sum(attempts, Charge) }

  function Larger(a: nat, b: nat): nat { if a < b then b else a }

  /** One legal large frame may pass an empty socket, but nothing may pile up behind it. */
  predicate HasRoom(c: Limits, attempts: seq<Attempt>, bytes: nat, buffered: nat) {
    && !(buffered > 0 && buffered + bytes > Larger(c.maxBufferedBytes, bytes))
    && Outstanding(attempts) + bytes <= c.maxPendingBytes
  }

  /** A frame of any size passes an idle socket; behind waiting bytes it must fit the socket's buffer with them. */
  lemma RoomMeans(c: Limits, attempts: seq<Attempt>, bytes: nat, buffered: nat)
    ensures HasRoom(c, attempts, bytes, buffered) <==>
            && (buffered == 0 || buffered + bytes <= c.maxBufferedBytes)
            && Outstanding(attempts) + bytes <= c.maxPendingBytes
  {
  }

  function Settled(a: Attempt, ok: bool): Attempt { a.(pending := false, outcomes := a.outcomes + [ok]) }

  function Settle(attempts: seq<Attempt>, id: nat, ok: bool): (r: seq<Attempt>)
    ensures |r| == |attempts|
  {
    if id < |attempts| && attempts[id].pending then attempts[id := Settled(attempts[id], ok)] else attempts
  }

  /** All flights of a socket are released when it closes. */
  function CloseAll(attempts: seq<Attempt>, socket: int): (r: seq<Attempt>)
    ensures |r| == |attempts|
    ensures forall i :: 0 <= i < |r| ==>
              r[i] == if attempts[i].pending && attempts[i].socket == socket then Settled(attempts[i], false) else attempts[i]
  {
    seq(|attempts|, i requires 0 <= i < |attempts| =>
      if attempts[i].pending && attempts[i].socket == socket then Settled(attempts[i], false) else attempts[i])
  }

  function Next(c: Limits, l: Ledger, e: Event): Ledger {
    match e
    case Send(socket, bytes, buffered, throws) =>
      if socket !in l.open then l.(attempts := l.attempts + [Attempt(socket, bytes, false, [false])])
      else if !HasRoom(c, l.attempts, bytes, buffered) || throws then
        Ledger(l.attempts + [Attempt(socket, bytes, false, [false])], l.open - {socket})
      else l.(attempts := l.attempts + [Attempt(socket, bytes, true, [])])
    case Written(id, failed) =>
      if id < |l.attempts| then l.(attempts := Settle(l.attempts, id, !failed && l.attempts[id].socket in l.open)) else l
    case Closed(socket) => Ledger(CloseAll(l.attempts, socket), l.open - {socket})
  }

  // ---- what every step keeps ----

  /** A flight in the air has had no answer, any other call has had one; the charge respects the cap. */
  predicate Sound(c: Limits, attempts: seq<Attempt>) {
    && Outstanding(attempts) <= c.maxPendingBytes
    && forall i :: 0 <= i < |attempts| ==> |attempts[i].outcomes| == if attempts[i].pending then 0 else 1
  }

  lemma OutstandingAppend(attempts: seq<Attempt>, a: Attempt)
    ensures Outstanding(attempts + [a]) == Outstanding(attempts) + Charge(a)
  {
    SumConcat(attempts, [a], Charge);
    assert [a][1..] == [];
  }

  lemma {:induction false} OutstandingUpdate(attempts: seq<Attempt>, id: nat, a: Attempt)
    requires id < |attempts|
    ensures Outstanding(attempts[id := a]) == Outstanding(attempts) - Charge(attempts[id]) + Charge(a)
  {
    if id == 0 {
      assert attempts[0 := a][1..] == attempts[1..];
    } else {
      OutstandingUpdate(attempts[1..], id - 1, a);
      assert attempts[id := a][1..] == attempts[1..][id - 1 := a];
    }
  }

  lemma {:induction false} OutstandingLess(attempts: seq<Attempt>, less: seq<Attempt>)
    requires |less| == |attempts| && forall i :: 0 <= i < |attempts| ==> Charge(less[i]) <= Charge(attempts[i])
    ensures Outstanding(less) <= Outstanding(attempts)
  {
    if attempts != [] {
      OutstandingLess(attempts[1..], less[1..]);
    }
  }

  lemma WithinCap(c: Limits, attempts: seq<Attempt>)
    requires Sound(c, attempts)
    ensures Outstanding(attempts) <= c.maxPendingBytes
  {
  }

  lemma AppendSound(c: Limits, attempts: seq<Attempt>, a: Attempt)
    requires Sound(c, attempts) && Outstanding(attempts) + Charge(a) <= c.maxPendingBytes
    requires |a.outcomes| == if a.pending then 0 else 1
    ensures Sound(c, attempts + [a])
  {
    OutstandingAppend(attempts, a);
    hide Outstanding;
  }

  lemma SettleSound(c: Limits, attempts: seq<Attempt>, id: nat, ok: bool)
    requires Sound(c, attempts) && id < |attempts| && attempts[id].pending
    ensures Sound(c, Settle(attempts, id, ok))
  {
    OutstandingUpdate(attempts, id, Settled(attempts[id], ok));
    hide Outstanding;
  }

  lemma StepSound(c: Limits, l: Ledger, e: Event)
    requires Sound(c, l.attempts)
    ensures Sound(c, Next(c, l, e).attempts)
  {
    var after := Next(c, l, e);
    match e
    case Send(socket, bytes, buffered, throws) =>
      OutstandingAppend(l.attempts, after.attempts[|l.attempts|]);
    case Written(id, failed) =>
      OutstandingLess(l.attempts, after.attempts);
    case Closed(socket) =>
      OutstandingLess(l.attempts, after.attempts);
  }

  /** An answer, once given, is never taken back or repeated. */
  lemma StepKeepsAnswer(c: Limits, l: Ledger, e: Event, id: nat)
    requires Sound(c, l.attempts) && id < |l.attempts|
    ensures var after := Next(c, l, e).attempts;
            && |after| >= |l.attempts| && after[id].socket == l.attempts[id].socket
            && (!l.attempts[id].pending ==> after[id] == l.attempts[id])
    ensures (e.Written? && e.id == id) || (e.Closed? && e.socket == l.attempts[id].socket)
            ==> !Next(c, l, e).attempts[id].pending
  {
  }

  predicate StepsAt(c: Limits, run: seq<Event>, h: seq<Ledger>, k: nat)
    requires k < |run| && |h| == |run| + 1
  {
    h[k + 1] == Next(c, h[k], run[k])
  }

  function Ledgers(c: Limits, open: set<int>, run: seq<Event>): (h: seq<Ledger>)
    ensures |h| == |run| + 1 && h[0] == Ledger([], open)
    ensures forall k :: 0 <= k < |run| ==> StepsAt(c, run, h, k)
  {
    if run == [] then [Ledger([], open)] else
      var n := |run| - 1;
      var h := Ledgers(c, open, run[..n]);
      var r := h + [Next(c, h[n], run[n])];
      assert forall k :: 0 <= k < n ==> StepsAt(c, run, r, k) by {
        forall k | 0 <= k < n ensures StepsAt(c, run, r, k) {
          assert StepsAt(c, run[..n], h, k);
        }
      }
      r
  }

  lemma {:induction false} ReachableLedger(c: Limits, open: set<int>, run: seq<Event>, k: nat)
    requires k <= |run|
    ensures Sound(c, Ledgers(c, open, run)[k].attempts)
  {
    if k > 0 {
      hide Next, Sound;
      ReachableLedger(c, open, run, k - 1);
      assert StepsAt(c, run, Ledgers(c, open, run), k - 1);
      StepSound(c, Ledgers(c, open, run)[k - 1], run[k - 1]);
    }
  }

  /** Every call keeps its place in the ledger, and its one answer for good. */
  lemma {:induction false} AnswerLasts(c: Limits, open: set<int>, run: seq<Event>, j: nat, k: nat, id: nat)
    requires j <= k <= |run| && id < |Ledgers(c, open, run)[j].attempts|
    ensures var h := Ledgers(c, open, run);
            && id < |h[k].attempts| && h[k].attempts[id].socket == h[j].attempts[id].socket
            && (!h[j].attempts[id].pending ==> h[k].attempts[id] == h[j].attempts[id])
  {
    if j < k {
      hide Next, Sound;
      AnswerLasts(c, open, run, j, k - 1, id);
      ReachableLedger(c, open, run, k - 1);
      assert StepsAt(c, run, Ledgers(c, open, run), k - 1);
      StepKeepsAnswer(c, Ledgers(c, open, run)[k - 1], run[k - 1], id);
    }
  }

  /** Whatever else happens, a flight is answered exactly once if its write reports back or its socket closes. */
  lemma CompletedExactlyOnce(c: Limits, open: set<int>, run: seq<Event>, j: nat, i: nat, k: nat, id: nat)
    requires j <= i < k <= |run| && id < |Ledgers(c, open, run)[j].attempts|
    requires var socket := Ledgers(c, open, run)[j].attempts[id].socket;
             run[i] == Closed(socket) || (run[i].Written? && run[i].id == id)
    ensures var h := Ledgers(c, open, run);
            && id < |h[i + 1].attempts| && id < |h[k].attempts| && h[k].attempts[id] == h[i + 1].attempts[id]
            && !h[k].attempts[id].pending && |h[k].attempts[id].outcomes| == 1
  {
    hide Next;
    AnswerLasts(c, open, run, j, i, id);
    AnswerLasts(c, open, run, j, i + 1, id);
    ReachableLedger(c, open, run, i);
    assert StepsAt(c, run, Ledgers(c, open, run), i);
    StepKeepsAnswer(c, Ledgers(c, open, run)[i], run[i], id);
    AnswerLasts(c, open, run, i + 1, k, id);
    ReachableLedger(c, open, run, k);
  }

  // ---- the closure as a class ----

  /** The ids of a socket's flights among the first `n` calls, oldest first. */
  function FlightIds(attempts: seq<Attempt>, socket: int, n: nat): seq<int>
    requires n <= |attempts|
  {
    if n == 0 then []
    else FlightIds(attempts, socket, n - 1)
         + (if attempts[n - 1].pending && attempts[n - 1].socket == socket then [n - 1] else [])
  }

  lemma {:induction false} FlightIdsAre(attempts: seq<Attempt>, socket: int, n: nat)
    requires n <= |attempts|
    ensures forall id :: id in FlightIds(attempts, socket, n) <==>
                         0 <= id < n && attempts[id].pending && attempts[id].socket == socket
  {
    if n > 0 {
      FlightIdsAre(attempts, socket, n - 1);
    }
  }

  function OtherThan(id: int): int -> bool { (other: int) => other != id }

  lemma FlightIdsStep(attempts: seq<Attempt>, socket: int, n: nat)
    requires n < |attempts|
    ensures FlightIds(attempts, socket, n + 1) ==
            FlightIds(attempts, socket, n) + if attempts[n].pending && attempts[n].socket == socket then [n] else []
  {
  }

  lemma SettledAt(attempts: seq<Attempt>, id: nat, ok: bool, i: nat)
    requires id < |attempts| && attempts[id].pending && i < |attempts|
    ensures var after := Settle(attempts, id, ok)[i];
            if i == id then !after.pending else after == attempts[i]
  {
  }

  lemma NextFlight(before: seq<int>, last: int, id: int, flies: bool)
    ensures Filter(before, OtherThan(id)) + (if flies && last != id then [last] else [])
            == Filter(before + (if flies then [last] else []), OtherThan(id))
  {
    if flies {
      FilterLast(before, last, id);
    } else {
      assert before + [] == before;
    }
  }

  lemma {:induction false} FlightIdsSettle(attempts: seq<Attempt>, socket: int, id: nat, ok: bool, n: nat)
    requires id < |attempts| && attempts[id].pending && attempts[id].socket == socket && n <= |attempts|
    ensures FlightIds(Settle(attempts, id, ok), socket, n) == Filter(FlightIds(attempts, socket, n), OtherThan(id))
  {
    if n > 0 {
      FlightIdsSettle(attempts, socket, id, ok, n - 1);
      FlightIdsStep(attempts, socket, n - 1);
      FlightIdsStep(Settle(attempts, id, ok), socket, n - 1);
      SettledAt(attempts, id, ok, n - 1);
      hide FlightIds, Filter, Settle;
      NextFlight(FlightIds(attempts, socket, n - 1), n - 1, id, attempts[n - 1].pending && attempts[n - 1].socket == socket);
    }
  }

  lemma FilterLast(ids: seq<int>, last: int, id: int)
    ensures Filter(ids + [last], OtherThan(id)) == Filter(ids, OtherThan(id)) + if last == id then [] else [last]
  {
    FilterConcat(ids, [last], OtherThan(id));
    assert [last][1..] == [];
  }

  lemma {:induction false} FlightIdsElsewhere(attempts: seq<Attempt>, socket: int, id: nat, ok: bool, n: nat)
    requires id < |attempts| && attempts[id].socket != socket && n <= |attempts|
    ensures FlightIds(Settle(attempts, id, ok), socket, n) == FlightIds(attempts, socket, n)
  {
    if n > 0 {
      FlightIdsElsewhere(attempts, socket, id, ok, n - 1);
      hide FlightIds;
      FlightIdsStep(attempts, socket, n - 1);
      FlightIdsStep(Settle(attempts, id, ok), socket, n - 1);
    }
  }

  lemma {:induction false} FlightIdsAppend(attempts: seq<Attempt>, a: Attempt, socket: int, n: nat)
    requires n <= |attempts|
    ensures FlightIds(attempts + [a], socket, n) == FlightIds(attempts, socket, n)
  {
    if n > 0 {
      FlightIdsAppend(attempts, a, socket, n - 1);
    }
  }

  /** The sets of release closures are exactly the flights not yet released. */
  ghost predicate Tracks(flights: map<int, seq<int>>, attempts: seq<Attempt>) {
    forall s :: FlightIds(attempts, s, |attempts|) == if s in flights then flights[s] else []
  }

  lemma TracksSettle(flights: map<int, seq<int>>, attempts: seq<Attempt>, id: nat, ok: bool)
    requires Tracks(flights, attempts) && id < |attempts| && attempts[id].pending
    ensures var s := attempts[id].socket;
            s in flights && Tracks(flights[s := Filter(flights[s], OtherThan(id))], Settle(attempts, id, ok))
  {
    hide FlightIds, Settle;
    var socket := attempts[id].socket;
    FlightIdsAre(attempts, socket, |attempts|);
    var after := flights[socket := Filter(flights[socket], OtherThan(id))];
    forall s ensures FlightIds(Settle(attempts, id, ok), s, |attempts|) == if s in after then after[s] else [] {
      if s == socket {
        FlightIdsSettle(attempts, s, id, ok, |attempts|);
      } else {
        FlightIdsElsewhere(attempts, s, id, ok, |attempts|);
      }
    }
  }

  lemma FlightIdsGrow(attempts: seq<Attempt>, a: Attempt, s: int)
    ensures FlightIds(attempts + [a], s, |attempts| + 1) ==
            FlightIds(attempts, s, |attempts|) + if a.pending && a.socket == s then [|attempts|] else []
  {
    FlightIdsAppend(attempts, a, s, |attempts|);
  }

  lemma TracksAppend(flights: map<int, seq<int>>, after: map<int, seq<int>>, attempts: seq<Attempt>, a: Attempt)
    requires Tracks(flights, attempts)
    requires if a.pending then after == flights[a.socket := (if a.socket in flights then flights[a.socket] else []) + [|attempts|]]
             else after == flights
    ensures Tracks(after, attempts + [a])
  {
    hide FlightIds;
    forall s ensures FlightIds(attempts + [a], s, |attempts| + 1) == if s in after then after[s] else [] {
      FlightIdsGrow(attempts, a, s);
    }
  }

  class Delivery {
    const c: Limits
    var attempts: seq<Attempt>
    var open: set<int>
    var pendingBytes: nat
    /** The release closures of each socket that ever had one, in the order they were added. */
    var flights: map<int, seq<int>>

    function State(): Ledger
      reads this
    {
      Ledger(attempts, open)
    }

    ghost predicate Valid()
      reads this
    {
      && Sound(c, attempts) && pendingBytes == Outstanding(attempts)
      && Tracks(flights, attempts)
    }

    constructor (c: Limits, open: set<int>)
      ensures Valid() && State() == Ledger([], open) && this.c == c && pendingBytes == 0
    {
      this.c, attempts, this.open, pendingBytes, flights := c, [], open, 0, map[];
    }

    /** A call that is refused before anything is charged. */
    method Refuse(socket: int, bytes: nat)
      requires Valid()
      modifies this`attempts
      ensures Valid() && attempts == old(attempts) + [Attempt(socket, bytes, false, [false])]
    {
      hide Sound, Outstanding, Tracks, FlightIds;
      var a := Attempt(socket, bytes, false, [false]);
      OutstandingAppend(attempts, a);
      WithinCap(c, attempts);
      AppendSound(c, attempts, a);
      TracksAppend(flights, flights, attempts, a);
      attempts := attempts + [a];
    }

    /** The release closure of one call; only its first invocation does anything. */
    method Release(id: nat, failed: bool)
      requires Valid() && id < |attempts|
      modifies this`attempts, this`pendingBytes, this`flights
      ensures Valid() && attempts == Settle(old(attempts), id, !failed && old(attempts)[id].socket in open)
      ensures flights.Keys == old(flights).Keys
      ensures pendingBytes == old(pendingBytes) - Charge(old(attempts)[id])
    {
      hide Sound, Outstanding, Tracks, FlightIds;
      if !attempts[id].pending {
        return;
      }
      var a := attempts[id];
      var ok := !failed && a.socket in open;
      OutstandingUpdate(attempts, id, Settled(a, ok));
      SettleSound(c, attempts, id, ok);
      TracksSettle(flights, attempts, id, ok);
      pendingBytes := pendingBytes - a.bytes;
      flights := flights[a.socket := Filter(flights[a.socket], OtherThan(id))];
      attempts := attempts[id := Settled(a, ok)];
    }

    /** `throws` says that issuing the allowance or writing to the socket fails at once. */
    method SendFrame(socket: int, bytes: nat, buffered: nat, throws: bool) returns (accepted: bool)
      requires Valid()
      modifies this
      ensures Valid() && State() == Next(c, old(State()), Send(socket, bytes, buffered, throws))
      ensures accepted <==> socket in old(open) && HasRoom(c, old(attempts), bytes, buffered) && !throws
      ensures pendingBytes == old(pendingBytes) + if accepted then bytes else 0
    {
      hide Sound, Outstanding, Tracks, FlightIds;
      if socket !in open {
        Refuse(socket, bytes);
        return false;
      }
      if (buffered > 0 && buffered + bytes > Larger(c.maxBufferedBytes, bytes)) || pendingBytes + bytes > c.maxPendingBytes {
        open := open - {socket};
        Refuse(socket, bytes);
        return false;
      }
      Admit(socket, bytes);
      if throws {
        Release(|attempts| - 1, true);
        open := open - {socket};
        SettleLast(old(attempts), Attempt(socket, bytes, true, []), false);
        return false;
      }
      return true;
    }

    /** Charges a frame and registers its release closure. */
    method Admit(socket: int, bytes: nat)
      requires Valid() && Outstanding(attempts) + bytes <= c.maxPendingBytes
      modifies this`attempts, this`pendingBytes, this`flights
      ensures Valid() && attempts == old(attempts) + [Attempt(socket, bytes, true, [])]
      ensures pendingBytes == old(pendingBytes) + bytes
    {
      hide Sound, Outstanding, Tracks, FlightIds;
      var a := Attempt(socket, bytes, true, []);
      OutstandingAppend(attempts, a);
      AppendSound(c, attempts, a);
      pendingBytes := pendingBytes + bytes;
      if socket !in flights {
        flights := flights[socket := []];
      }
      flights := flights[socket := flights[socket] + [|attempts|]];
      TracksAppend(old(flights), flights, attempts, a);
      attempts := attempts + [a];
    }

    /** The `close` event: every flight of the socket is released, in order. */
    method OnClose(socket: int)
      requires Valid()
      modifies this
      ensures Valid() && State() == Next(c, old(State()), Closed(socket))
      ensures FlightIds(attempts, socket, |attempts|) == []
    {
      hide Sound, Outstanding, Tracks;
      open := open - {socket};
      TracksSocket(flights, attempts, socket);
      if socket !in flights {
        NoFlights(attempts, socket);
        return;
      }
      while flights[socket] != []
        invariant Valid() && socket in flights && open == old(open) - {socket}
        invariant |attempts| == |old(attempts)|
        invariant CloseAll(attempts, socket) == CloseAll(old(attempts), socket)
        decreases |flights[socket]|
      {
        TracksSocket(flights, attempts, socket);
        var id := flights[socket][0];
        FlightIdsAre(attempts, socket, |attempts|);
        assert id in FlightIds(attempts, socket, |attempts|);
        SettleThenClose(attempts, socket, id);
        FirstGoes(flights[socket]);
        ghost var ids := flights[socket];
        FlightIdsSettle(attempts, socket, id, false, |attempts|);
        Release(id, false);
        TracksSocket(flights, attempts, socket);
        assert flights[socket] == Filter(ids, OtherThan(id));
      }
      TracksSocket(flights, attempts, socket);
      NoFlights(attempts, socket);
    }
  }

  lemma SettleLast(attempts: seq<Attempt>, a: Attempt, ok: bool)
    requires a.pending && a.outcomes == []
    ensures Settle(attempts + [a], |attempts|, ok) == attempts + [a.(pending := false, outcomes := [ok])]
  {
    assert [] + [ok] == [ok];
    assert Settled(a, ok) == a.(pending := false, outcomes := [ok]);
  }

  lemma TracksSocket(flights: map<int, seq<int>>, attempts: seq<Attempt>, s: int)
    requires Tracks(flights, attempts)
    ensures FlightIds(attempts, s, |attempts|) == if s in flights then flights[s] else []
  {
  }

  lemma NoFlights(attempts: seq<Attempt>, socket: int)
    requires FlightIds(attempts, socket, |attempts|) == []
    ensures CloseAll(attempts, socket) == attempts
  {
    FlightIdsAre(attempts, socket, |attempts|);
    forall i | 0 <= i < |attempts| ensures CloseAll(attempts, socket)[i] == attempts[i] {
      assert i !in FlightIds(attempts, socket, |attempts|);
    }
  }

  lemma SettleThenClose(attempts: seq<Attempt>, socket: int, id: nat)
    requires id < |attempts| && attempts[id].pending && attempts[id].socket == socket
    ensures CloseAll(Settle(attempts, id, false), socket) == CloseAll(attempts, socket)
  {
  }

  lemma FirstGoes(ids: seq<int>)
    requires ids != []
    ensures |Filter(ids, OtherThan(ids[0]))| < |ids|
  {
  }
}
