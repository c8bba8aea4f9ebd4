/**
 * Which frames of a Node socket are taken: at most so many in each fixed window of a second, and
 * besides them one acknowledgement for every frame the relay sent to that socket not long ago.
 */
module FrameAdmission {
  import opened Lists
  import opened Wire

  const MAX_OUTSTANDING := 512
  const LIFETIME_MS := 30000
  const MAX_ACK_BYTES := 1536
  const WINDOW_MS := 1000

  // ---- the fixed window ----

  /** `None` is a window that has never started. */
  datatype Window = Window(startedAt: Option<int>, messages: nat)

  predicate Running(w: Window, now: int) { w.startedAt.Some? && now - w.startedAt.value < WINDOW_MS }

  function Counted(w: Window, now: int): Window {
    if Running(w, now) then w.(messages := w.messages + 1) else Window(Some(now), 1)
  }

  class FrameWindow {
    var startedAt: Option<int>
    var messages: nat

    constructor (startedAt: Option<int>)
      ensures State() == Window(startedAt, 0)
    {
      this.startedAt, messages := startedAt, 0;
    }

    function State(): Window
      reads this
    {
      Window(startedAt, messages)
    }

    /** `acceptSocketFrame`. */
    method Accept(now: int, limit: nat) returns (accepted: bool)
      modifies this
      ensures State() == Counted(old(State()), now)
      ensures accepted <==> State().messages <= limit
      ensures if old(startedAt).Some? && now < old(startedAt).value + 1000
              then startedAt == old(startedAt) && messages == old(messages) + 1
              else startedAt == Some(now) && messages == 1
    {
      if startedAt.None? || !(now - startedAt.value < WINDOW_MS) {
        startedAt := Some(now);
        messages := 0;
      }
      messages := messages + 1;
      accepted := messages <= limit;
    }
  }

  /** How many of the frames at these times are accepted, from window `w` on. */
  function Accepted(w: Window, times: seq<int>, limit: nat): nat
    decreases times
  {
    if times == [] then 0
    else (if Counted(w, times[0]).messages <= limit then 1 else 0) + Accepted(Counted(w, times[0]), times[1..], limit)
  }

  function Left(w: Window, limit: nat): nat { if w.messages < limit then limit - w.messages else 0 }

  predicate InOrder(times: seq<int>) { forall i, j :: 0 <= i < j < |times| ==> times[i] <= times[j] }

  /** While one window runs, only what it has left is accepted. */
  lemma {:induction false} OneWindow(w: Window, times: seq<int>, limit: nat)
    requires forall i :: 0 <= i < |times| ==> Running(w, times[i])
    ensures Accepted(w, times, limit) <= Left(w, limit)
    decreases times
  {
    if times != [] {
      OneWindow(Counted(w, times[0]), times[1..], limit);
    }
  }

  /** Any stretch of less than a second accepts at most what the running window has left and one more window. */
  lemma {:induction false} AtMostTwoWindows(w: Window, times: seq<int>, limit: nat)
    requires InOrder(times) && (times != [] ==> times[|times| - 1] - times[0] < WINDOW_MS)
    ensures Accepted(w, times, limit) <= Left(w, limit) + limit <= 2 * limit
    decreases times
  {
    if times != [] {
      var next := Counted(w, times[0]);
      if Running(w, times[0]) {
        AtMostTwoWindows(next, times[1..], limit);
      } else {
        forall i | 0 <= i < |times| - 1 ensures Running(next, times[1..][i]) {
          assert times[0] <= times[i + 1] <= times[|times| - 1];
        }
        OneWindow(next, times[1..], limit);
      }
    }
  }

  function Repeat(t: int, n: nat): (times: seq<int>)
    ensures |times| == n && forall i :: 0 <= i < n ==> times[i] == t
  {
    if n == 0 then [] else [t] + Repeat(t, n - 1)
  }

  lemma {:induction false} BurstAccepted(w: Window, t: int, n: nat, rest: seq<int>, limit: nat)
    requires w.startedAt.Some? && t - w.startedAt.value < WINDOW_MS && w.messages + n <= limit
    ensures Accepted(w, Repeat(t, n) + rest, limit) == n + Accepted(w.(messages := w.messages + n), rest, limit)
    decreases n
  {
    if n == 0 {
      assert Repeat(t, n) + rest == rest;
    } else {
      assert (Repeat(t, n) + rest)[1..] == Repeat(t, n - 1) + rest;
      BurstAccepted(Counted(w, t), t, n - 1, rest, limit);
    }
  }

  /** The bound is reached: `limit` frames late in one window and `limit` early in the next, two milliseconds apart. */
  lemma TwoWindowsReached(limit: nat)
    requires limit > 0
    ensures var times := Repeat(WINDOW_MS - 1, limit) + ([WINDOW_MS + 1] + Repeat(WINDOW_MS + 1, limit - 1));
            && InOrder(times) && times[|times| - 1] - times[0] == 2
            && Accepted(Window(Some(0), 0), times, limit) == 2 * limit
  {
    var late, first := Window(Some(0), 0), WINDOW_MS + 1;
    var second := [first] + Repeat(first, limit - 1);
    BurstAccepted(late, WINDOW_MS - 1, limit, second, limit);
    assert second[1..] == Repeat(first, limit - 1) + [];
    BurstAccepted(Window(Some(first), 1), first, limit - 1, [], limit);
  }

  // ---- single-use allowances ----

  datatype Allowance = Allowance(deliveryId: string, expiresAt: int)

  predicate Names(deliveryId: Option<string>) { deliveryId.Some? && ValidIdentifier(deliveryId.value, 180) }

  function OtherId(deliveryId: string): Allowance -> bool { (a: Allowance) => a.deliveryId != deliveryId }

  function WithoutFirst(pending: seq<Allowance>): seq<Allowance> {
    if |pending| > MAX_OUTSTANDING then pending[1..] else pending
  }

  /** `issue`, for the allowances of one socket. */
  function Issued(pending: seq<Allowance>, deliveryId: Option<string>, now: int): seq<Allowance> {
    if !Names(deliveryId) then pending
    else WithoutFirst(Filter(pending, OtherId(deliveryId.value)) + [Allowance(deliveryId.value, now + LIFETIME_MS)])
  }

  /** An incoming frame: its size, whether it is JSON, and what an acknowledgement would show. */
  datatype Frame = Frame(bytes: nat, isAck: bool, deliveryId: Option<string>, fields: nat)

  predicate IsAck(f: Frame) { f.bytes <= MAX_ACK_BYTES && f.isAck && Names(f.deliveryId) && f.fields == 2 }

  function Find(pending: seq<Allowance>, deliveryId: string): (expiresAt: Option<int>)
    ensures expiresAt.Some? ==> Allowance(deliveryId, expiresAt.value) in pending
    ensures expiresAt.None? ==> forall a :: a in pending ==> a.deliveryId != deliveryId
  {
    if pending == [] then None
    else if pending[0].deliveryId == deliveryId then Some(pending[0].expiresAt)
    else Find(pending[1..], deliveryId)
  }

  function Consumed(pending: seq<Allowance>, f: Frame): seq<Allowance> {
    if IsAck(f) then Filter(pending, OtherId(f.deliveryId.value)) else pending
  }

  predicate Credited(pending: seq<Allowance>, f: Frame, now: int) {
    IsAck(f) && Find(pending, f.deliveryId.value).Some? && now < Find(pending, f.deliveryId.value).value
  }

  class ResponseAcknowledgements {
    var sockets: map<int, seq<Allowance>>

    constructor ()
      ensures sockets == map[]
    {
      sockets := map[];
    }

    function Pending(socket: int): seq<Allowance>
      reads this
    {
      if socket in sockets then sockets[socket] else []
    }

    method Issue(socket: int, deliveryId: Option<string>, now: int)
      modifies this
      ensures Pending(socket) == Issued(old(Pending(socket)), deliveryId, now)
      ensures if deliveryId.Some? && 1 <= |deliveryId.value| <= 180
              then var others := Filter(old(Pending(socket)), OtherId(deliveryId.value));
                   Pending(socket) == (if |others| >= 512 then others[1..] else others) + [Allowance(deliveryId.value, now + 30000)]
              else Pending(socket) == old(Pending(socket))
      ensures forall other :: other != socket ==> Pending(other) == old(Pending(other))
    {
      if deliveryId.None? || !(1 <= |deliveryId.value| <= 180) {
        return;
      }
      var pending := if socket in sockets then sockets[socket] else [];
      pending := Filter(pending, OtherId(deliveryId.value)) + [Allowance(deliveryId.value, now + LIFETIME_MS)];
      if |pending| > MAX_OUTSTANDING {
        pending := pending[1..];
      }
      sockets := sockets[socket := pending];
    }

    method Consume(socket: int, f: Frame, now: int) returns (credited: bool)
      modifies this
      ensures credited <==> Credited(old(Pending(socket)), f, now)
      ensures credited ==> && f.bytes <= 1536 && f.isAck && f.fields == 2
                           && f.deliveryId.Some? && 1 <= |f.deliveryId.value| <= 180
                           && (exists a :: a in old(Pending(socket)) && a.deliveryId == f.deliveryId.value && now < a.expiresAt)
                           && (forall a :: a in Pending(socket) <==> a in old(Pending(socket)) && a.deliveryId != f.deliveryId.value)
      ensures Pending(socket) == Consumed(old(Pending(socket)), f)
      ensures forall other :: other != socket ==> Pending(other) == old(Pending(other))
    {
      if f.bytes > MAX_ACK_BYTES || !f.isAck || f.deliveryId.None? || !(1 <= |f.deliveryId.value| <= 180) || f.fields != 2 {
        return false;
      }
      var pending := if socket in sockets then sockets[socket] else [];
      var expiresAt := Find(pending, f.deliveryId.value);
      if expiresAt.None? {
        FilterAll(pending, OtherId(f.deliveryId.value));
        return false;
      }
      sockets := sockets[socket := Filter(pending, OtherId(f.deliveryId.value))];
      return expiresAt.value > now;
    }
  }

  // ---- one socket over a whole run ----

  datatype Event = Sent(now: int, deliveryId: Option<string>) | Received(now: int, frame: Frame)

  function Next(pending: seq<Allowance>, e: Event): seq<Allowance> {
    match e
    case Sent(now, deliveryId) => Issued(pending, deliveryId, now)
    case Received(now, f) => Consumed(pending, f)
  }

  /** The allowances after a run. */
  function Held(run: seq<Event>): seq<Allowance> {
    if run == [] then [] else Next(Held(run[..|run| - 1]), run[|run| - 1])
  }

  predicate Issues(e: Event, id: string) { e.Sent? && e.deliveryId == Some(id) && Names(e.deliveryId) }
  predicate Answers(e: Event, id: string) { e.Received? && IsAck(e.frame) && e.frame.deliveryId == Some(id) }

  /** From the run alone: the allowance of `id` lasts from its latest sending until its first acknowledgement. */
  function Granted(run: seq<Event>, id: string): Option<int> {
    if run == [] then None
    else
      var e := run[|run| - 1];
      if Issues(e, id) then Some(e.now + LIFETIME_MS)
      else if Answers(e, id) then None
      else Granted(run[..|run| - 1], id)
  }

  /** The other ids sent after the latest sending of `id` and not acknowledged since. */
  function Behind(run: seq<Event>, id: string): set<string> {
    if run == [] then {}
    else
      var e, before := run[|run| - 1], Behind(run[..|run| - 1], id);
      if Issues(e, id) then {}
      else if e.Sent? && Names(e.deliveryId) then before + {e.deliveryId.value}
      else if e.Received? && IsAck(e.frame) then before - {e.frame.deliveryId.value}
      else before
  }

  /** `id` is granted, and at no moment since its latest sending were 512 other ids behind it. */
  predicate Survives(run: seq<Event>, id: string) {
    run != [] &&
    var e := run[|run| - 1];
    Issues(e, id) || (!Answers(e, id) && Survives(run[..|run| - 1], id) && |Behind(run, id)| < MAX_OUTSTANDING)
  }

  // ---- where an allowance stands ----

  function IdOf(a: Allowance): string { a.deliveryId }

  predicate Unique(pending: seq<Allowance>) { UniqueBy(pending, IdOf) }

  function Ids(pending: seq<Allowance>): set<string> { set a | a in pending :: a.deliveryId }

  lemma {:induction false} IdsCount(pending: seq<Allowance>)
    requires Unique(pending)
    ensures |Ids(pending)| == |pending|
  {
    if pending != [] {
      HeadDiffers(pending, IdOf);
      IdsCount(pending[1..]);
      hide UniqueBy;
      assert pending == [pending[0]] + pending[1..];
      assert Ids(pending) == {pending[0].deliveryId} + Ids(pending[1..]);
    }
  }

  /** `a` is held, and the ids behind it are exactly these. */
  ghost predicate Placed(pending: seq<Allowance>, a: Allowance, behind: set<string>) {
    exists p :: 0 <= p < |pending| && pending[p] == a && Ids(pending[p + 1..]) == behind
  }

  lemma PlacedAt(head: seq<Allowance>, a: Allowance, tail: seq<Allowance>)
    ensures Placed(head + [a] + tail, a, Ids(tail))
  {
    var all := head + [a] + tail;
    assert all[|head|] == a && all[|head| + 1..] == tail;
  }

  lemma IdsFiltered(tail: seq<Allowance>, id: string)
    ensures Ids(Filter(tail, OtherId(id))) == Ids(tail) - {id}
  {
    hide Filter;
    forall x | x in Ids(tail) - {id} ensures x in Ids(Filter(tail, OtherId(id))) {
      var a :| a in tail && a.deliveryId == x;
      assert a in Filter(tail, OtherId(id));
    }
  }

  lemma PlacedFiltered(pending: seq<Allowance>, a: Allowance, behind: set<string>, id: string)
    requires Placed(pending, a, behind) && a.deliveryId != id
    ensures Placed(Filter(pending, OtherId(id)), a, behind - {id})
  {
    hide Filter, Ids;
    var p :| 0 <= p < |pending| && pending[p] == a && Ids(pending[p + 1..]) == behind;
    var head, tail := pending[..p], pending[p + 1..];
    assert pending == head + [a] + tail;
    FilterAround(head, a, tail, OtherId(id));
    IdsFiltered(tail, id);
    PlacedAt(Filter(head, OtherId(id)), a, Filter(tail, OtherId(id)));
  }

  lemma IdsAppended(tail: seq<Allowance>, newest: Allowance)
    ensures Ids(tail + [newest]) == Ids(tail) + {newest.deliveryId}
  {
    assert newest in tail + [newest];
    assert forall a :: a in tail ==> a in tail + [newest];
  }

  lemma PlacedAppended(kept: seq<Allowance>, a: Allowance, behind: set<string>, newest: Allowance)
    requires Placed(kept, a, behind)
    ensures Placed(kept + [newest], a, behind + {newest.deliveryId})
  {
    hide Ids;
    var p :| 0 <= p < |kept| && kept[p] == a && Ids(kept[p + 1..]) == behind;
    var head, tail := kept[..p], kept[p + 1..];
    assert kept + [newest] == head + [a] + (tail + [newest]);
    IdsAppended(tail, newest);
    PlacedAt(head, a, tail + [newest]);
  }

  /** The 513th allowance pushes out the first: the one with 512 others behind it. */
  lemma PlacedPushed(more: seq<Allowance>, a: Allowance, behind: set<string>)
    requires Unique(more) && |more| <= MAX_OUTSTANDING + 1 && Placed(more, a, behind)
    ensures if |behind| < MAX_OUTSTANDING then Placed(WithoutFirst(more), a, behind)
            else forall x :: x in WithoutFirst(more) ==> x.deliveryId != a.deliveryId
  {
    var p :| 0 <= p < |more| && more[p] == a && Ids(more[p + 1..]) == behind;
    TailUnique(more, p + 1);
    IdsCount(more[p + 1..]);
    if |behind| < MAX_OUTSTANDING {
      if |more| > MAX_OUTSTANDING {
        assert more[1..][p - 1] == a && more[1..][p..] == more[p + 1..];
      }
    } else {
      HeadDiffers(more, IdOf);
    }
  }

  lemma TailUnique(pending: seq<Allowance>, p: nat)
    requires Unique(pending) && p <= |pending|
    ensures Unique(pending[p..])
  {
    forall i, j | 0 <= i < j < |pending| - p ensures IdOf(pending[p..][i]) != IdOf(pending[p..][j]) {
      assert IdOf(pending[p + i]) != IdOf(pending[p + j]);
    }
  }

  // ---- what is held, from the run alone ----

  lemma StepBounded(pending: seq<Allowance>, e: Event)
    requires Unique(pending) && |pending| <= MAX_OUTSTANDING
    ensures Unique(Next(pending, e)) && |Next(pending, e)| <= MAX_OUTSTANDING
  {
    match e
    case Sent(now, deliveryId) =>
      if Names(deliveryId) {
        MoreUnique(pending, deliveryId.value, now);
        var more := Filter(pending, OtherId(deliveryId.value)) + [Allowance(deliveryId.value, now + LIFETIME_MS)];
        TailUnique(more, 1);
      }
    case Received(now, f) =>
      if IsAck(f) {
        FilterUnique(pending, OtherId(f.deliveryId.value), IdOf);
      }
  }

  lemma MoreUnique(pending: seq<Allowance>, id: string, now: int)
    requires Unique(pending) && |pending| <= MAX_OUTSTANDING
    ensures var more := Filter(pending, OtherId(id)) + [Allowance(id, now + LIFETIME_MS)];
            Unique(more) && |more| <= MAX_OUTSTANDING + 1
  {
    hide UniqueBy;
    FilterUnique(pending, OtherId(id), IdOf);
    AppendUnique(Filter(pending, OtherId(id)), Allowance(id, now + LIFETIME_MS), IdOf);
  }

  /** At most 512 allowances, one for each id, in every reachable state. */
  lemma {:induction false} HeldBounded(run: seq<Event>)
    ensures Unique(Held(run)) && |Held(run)| <= MAX_OUTSTANDING
  {
    if run != [] {
      hide Unique, Next;
      HeldBounded(run[..|run| - 1]);
      StepBounded(Held(run[..|run| - 1]), run[|run| - 1]);
    }
  }

  /** What is held of `id` after the run: its granted allowance in its place, or nothing. */
  ghost predicate Stands(pending: seq<Allowance>, run: seq<Event>, id: string) {
    if Survives(run, id) then Granted(run, id).Some? && Placed(pending, Allowance(id, Granted(run, id).value), Behind(run, id))
    else forall a :: a in pending ==> a.deliveryId != id
  }

  lemma SentStands(pending: seq<Allowance>, run: seq<Event>, id: string)
    requires run != [] && Unique(pending) && |pending| <= MAX_OUTSTANDING && Stands(pending, run[..|run| - 1], id)
    requires var e := run[|run| - 1]; e.Sent? && Names(e.deliveryId) && e.deliveryId.value != id
    ensures Stands(Next(pending, run[|run| - 1]), run, id)
  {
    hide Placed, Unique, Filter;
    var e, before := run[|run| - 1], run[..|run| - 1];
    var other := e.deliveryId.value;
    var kept, newest := Filter(pending, OtherId(other)), Allowance(other, e.now + LIFETIME_MS);
    MoreUnique(pending, other, e.now);
    if Survives(before, id) {
      var a := Allowance(id, Granted(before, id).value);
      PlacedFiltered(pending, a, Behind(before, id), other);
      PlacedAppended(kept, a, Behind(before, id) - {other}, newest);
      assert Behind(before, id) - {other} + {other} == Behind(run, id);
      PlacedPushed(kept + [newest], a, Behind(run, id));
    }
  }

  lemma {:induction false} HeldStands(run: seq<Event>, id: string)
    ensures Stands(Held(run), run, id)
  {
    if run != [] {
      var before, e := run[..|run| - 1], run[|run| - 1];
      HeldBounded(before);
      HeldStands(before, id);
      if Issues(e, id) {
        NewestPlaced(Held(before), e.deliveryId, e.now);
      } else if e.Sent? && Names(e.deliveryId) {
        SentStands(Held(before), run, id);
      } else if e.Received? && IsAck(e.frame) && !Answers(e, id) && Survives(before, id) {
        ReceivedStands(Held(before), run, id);
      } else {
        OtherwiseStands(Held(before), run, id);
      }
    }
  }

  lemma NewestPlaced(pending: seq<Allowance>, deliveryId: Option<string>, now: int)
    requires Names(deliveryId)
    ensures Placed(Issued(pending, deliveryId, now), Allowance(deliveryId.value, now + LIFETIME_MS), {})
  {
    var after := Issued(pending, deliveryId, now);
    assert after[|after| - 1] == Allowance(deliveryId.value, now + LIFETIME_MS) && after[|after|..] == [];
  }

  lemma ReceivedStands(pending: seq<Allowance>, run: seq<Event>, id: string)
    requires run != [] && Stands(pending, run[..|run| - 1], id) && Survives(run[..|run| - 1], id)
    requires var e := run[|run| - 1]; e.Received? && IsAck(e.frame) && !Answers(e, id)
    requires Unique(pending) && |pending| <= MAX_OUTSTANDING
    ensures Stands(Next(pending, run[|run| - 1]), run, id)
  {
    var e, before := run[|run| - 1], run[..|run| - 1];
    var a := Allowance(id, Granted(before, id).value);
    PlacedFiltered(pending, a, Behind(before, id), e.frame.deliveryId.value);
    FewBehind(pending, a, Behind(before, id));
    hide Placed, Unique;
    FewerIds(Behind(run, id), Behind(before, id));
  }

  lemma FewerIds(less: set<string>, more: set<string>)
    requires less <= more
    ensures |less| <= |more|
  {
    assert more == less + (more - less);
  }

  lemma FewBehind(pending: seq<Allowance>, a: Allowance, behind: set<string>)
    requires Unique(pending) && |pending| <= MAX_OUTSTANDING && Placed(pending, a, behind)
    ensures |behind| < MAX_OUTSTANDING
  {
    var p :| 0 <= p < |pending| && pending[p] == a && Ids(pending[p + 1..]) == behind;
    TailUnique(pending, p + 1);
    IdsCount(pending[p + 1..]);
  }

  lemma OtherwiseStands(pending: seq<Allowance>, run: seq<Event>, id: string)
    requires run != [] && Stands(pending, run[..|run| - 1], id) && Unique(pending) && |pending| <= MAX_OUTSTANDING
    requires var e := run[|run| - 1];
             && !Issues(e, id) && !(e.Sent? && Names(e.deliveryId))
             && (Answers(e, id) || !(e.Received? && IsAck(e.frame)) || !Survives(run[..|run| - 1], id))
    ensures Stands(Next(pending, run[|run| - 1]), run, id)
  {
    var e, before := run[|run| - 1], run[..|run| - 1];
    if Survives(before, id) && !Answers(e, id) {
      FewBehind(pending, Allowance(id, Granted(before, id).value), Behind(before, id));
    }
    hide Placed, Unique;
  }

  /** Nothing is held that the run does not grant. */
  lemma HeldSound(run: seq<Event>)
    ensures Unique(Held(run)) && |Held(run)| <= MAX_OUTSTANDING
    ensures forall a :: a in Held(run) ==> Survives(run, a.deliveryId) && Granted(run, a.deliveryId) == Some(a.expiresAt)
  {
    HeldBounded(run);
    forall a | a in Held(run) ensures Survives(run, a.deliveryId) && Granted(run, a.deliveryId) == Some(a.expiresAt) {
      HeldStands(run, a.deliveryId);
      OneAllowance(Held(run), a, run);
    }
  }

  lemma OneAllowance(pending: seq<Allowance>, a: Allowance, run: seq<Event>)
    requires Unique(pending) && a in pending && Stands(pending, run, a.deliveryId) && Survives(run, a.deliveryId)
    ensures Granted(run, a.deliveryId) == Some(a.expiresAt)
  {
    var i :| 0 <= i < |pending| && pending[i] == a;
    var b := Allowance(a.deliveryId, Granted(run, a.deliveryId).value);
    var p :| 0 <= p < |pending| && pending[p] == b && Ids(pending[p + 1..]) == Behind(run, a.deliveryId);
    assert IdOf(pending[i]) == IdOf(pending[p]);
  }

  /**
   * An acknowledgement is credited if and only if, on this socket, its id was sent less than 30
   * seconds ago, has not been acknowledged since, and never had 512 other ids behind it since:
   * sent later and not acknowledged either.
   */
  lemma CreditedExactly(run: seq<Event>, f: Frame, now: int)
    ensures Credited(Held(run), f, now) <==>
            && IsAck(f) && Survives(run, f.deliveryId.value)
            && Granted(run, f.deliveryId.value).Some? && now < Granted(run, f.deliveryId.value).value
  {
    if IsAck(f) {
      var id := f.deliveryId.value;
      HeldSound(run);
      HeldStands(run, id);
      hide Survives, Granted, Held, Behind, Names, Unique;
      if Survives(run, id) {
        assert Allowance(id, Granted(run, id).value) in Held(run);
      }
    }
  }

  /** The frames with these ids, sent one after the other. */
  function Sends(ids: seq<string>, now: int): (events: seq<Event>)
    ensures |events| == |ids| && forall i :: 0 <= i < |ids| ==> events[i] == Sent(now, Some(ids[i]))
  {
    seq(|ids|, i requires 0 <= i < |ids| => Sent(now, Some(ids[i])))
  }

  lemma {:induction false} SendsBehind(run: seq<Event>, ids: seq<string>, now: int, id: string)
    requires id !in ids && forall x :: x in ids ==> Names(Some(x))
    ensures forall x :: x in ids ==> x in Behind(run + Sends(ids, now), id)
  {
    hide Names;
    if ids != [] {
      var less, last := ids[..|ids| - 1], ids[|ids| - 1];
      SendsBehind(run, less, now, id);
      var events := run + Sends(ids, now);
      assert events[..|events| - 1] == run + Sends(less, now);
      assert ids == less + [last];
    }
  }

  /** The bound is sharp: 512 other ids sent after it push an allowance out, acknowledged or not. */
  lemma PushedOut(run: seq<Event>, ids: seq<string>, now: int, f: Frame, at: int)
    requires Distinct(ids) && |ids| == MAX_OUTSTANDING && forall id :: id in ids ==> Names(Some(id))
    requires IsAck(f) && f.deliveryId.value !in ids
    ensures !Credited(Held(run + Sends(ids, now)), f, at)
  {
    var events, id := run + Sends(ids, now), f.deliveryId.value;
    CreditedExactly(events, f, at);
    SendsBehind(run, ids, now, id);
    DistinctCount(ids, Behind(events, id));
    assert events[|events| - 1] == Sent(now, Some(ids[|ids| - 1])) && ids[|ids| - 1] in ids;
    hide Held, Behind, Granted;
  }

  lemma {:induction false} DistinctCount(ids: seq<string>, within: set<string>)
    requires Distinct(ids) && forall id :: id in ids ==> id in within
    ensures |ids| <= |within|
  {
    if ids != [] {
      var less, last := ids[..|ids| - 1], ids[|ids| - 1];
      assert last in ids;
      DistinctCount(less, within - {last});
    }
  }

  /** How often `id` was sent, and how often an acknowledgement of it was credited. */
  function TimesSent(run: seq<Event>, id: string): nat {
    if run == [] then 0 else TimesSent(run[..|run| - 1], id) + if Issues(run[|run| - 1], id) then 1 else 0
  }

  predicate CreditsAt(before: seq<Event>, e: Event, id: string) {
    Answers(e, id) && Credited(Held(before), e.frame, e.now)
  }

  function TimesCredited(run: seq<Event>, id: string): nat {
    if run == [] then 0
    else TimesCredited(run[..|run| - 1], id) + if CreditsAt(run[..|run| - 1], run[|run| - 1], id) then 1 else 0
  }

  /** Each allowance is used at most once: an id is credited no more often than it was sent. */
  lemma {:induction false} CreditsWithinSends(run: seq<Event>, id: string)
    ensures TimesCredited(run, id) + (if Granted(run, id).Some? then 1 else 0) <= TimesSent(run, id)
  {
    if run != [] {
      var before, e := run[..|run| - 1], run[|run| - 1];
      CreditsWithinSends(before, id);
      if Answers(e, id) {
        CreditedExactly(before, e.frame, e.now);
      }
    }
  }

  // ---- the gate: allowances first, then the window ----

  /** The frames of a run that no allowance covers, by time. */
  function Unsolicited(before: seq<Event>, run: seq<Event>): (times: seq<int>)
    decreases run
  {
    if run == [] then []
    else
      var e := run[0];
      (if e.Received? && !Credited(Held(before), e.frame, e.now) then [e.now] else [])
      + Unsolicited(before + [e], run[1..])
  }

  predicate EventsInOrder(run: seq<Event>) { forall i, j :: 0 <= i < j < |run| ==> run[i].now <= run[j].now }

  lemma ConsInOrder(t: int, rest: seq<int>)
    requires InOrder(rest) && forall x :: x in rest ==> t <= x
    ensures InOrder([t] + rest)
  {
    assert forall i :: 0 <= i < |rest| ==> rest[i] in rest;
  }

  lemma TailEventsInOrder(run: seq<Event>)
    requires run != [] && EventsInOrder(run)
    ensures EventsInOrder(run[1..]) && run[0].now <= run[|run| - 1].now
    ensures |run| > 1 ==> run[0].now <= run[1].now
  {
  }

  lemma UnsolicitedStep(before: seq<Event>, run: seq<Event>)
    requires run != []
    ensures var rest := Unsolicited(before + [run[0]], run[1..]);
            Unsolicited(before, run) == rest || Unsolicited(before, run) == [run[0].now] + rest
  {
  }

  predicate Between(times: seq<int>, first: int, last: int) { forall t :: t in times ==> first <= t <= last }

  lemma {:induction false} UnsolicitedTimes(before: seq<Event>, run: seq<Event>)
    requires EventsInOrder(run)
    ensures InOrder(Unsolicited(before, run))
    ensures if run == [] then Unsolicited(before, run) == []
            else Between(Unsolicited(before, run), run[0].now, run[|run| - 1].now)
    decreases run
  {
    if run != [] {
      TailEventsInOrder(run);
      var rest, first, last := Unsolicited(before + [run[0]], run[1..]), run[0].now, run[|run| - 1].now;
      UnsolicitedTimes(before + [run[0]], run[1..]);
      UnsolicitedStep(before, run);
      hide Unsolicited, EventsInOrder;
      ConsInOrderBetween(first, rest, if |run| > 1 then run[1].now else first, last);
    }
  }

  lemma ConsInOrderBetween(first: int, rest: seq<int>, later: int, last: int)
    requires InOrder(rest) && first <= later && first <= last && (rest == [] || Between(rest, later, last))
    ensures InOrder([first] + rest) && Between(rest, first, last) && Between([first] + rest, first, last)
  {
    ConsInOrder(first, rest);
  }

  /** On one socket, any stretch of less than a second takes at most twice the limit besides credited acknowledgements. */
  lemma GateAdmitsAtMostTwice(before: seq<Event>, run: seq<Event>, w: Window, limit: nat)
    requires EventsInOrder(run) && (run != [] ==> run[|run| - 1].now - run[0].now < WINDOW_MS)
    ensures Accepted(w, Unsolicited(before, run), limit) <= 2 * limit
  {
    hide Unsolicited, EventsInOrder;
    UnsolicitedTimes(before, run);
    var times := Unsolicited(before, run);
    if times != [] {
      assert times[0] in times && times[|times| - 1] in times;
    }
    AtMostTwoWindows(w, times, limit);
  }
}
