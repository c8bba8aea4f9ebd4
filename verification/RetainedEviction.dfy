/**
 * Which rows a replacement leaves in the cache, said without the algorithm: who may enter, how
 * urgent a group is, and which rows go. Every limit is written out.
 */
module RetainedEviction {
  import opened Lists
  import opened Text
  import opened Wire
  import opened RetainedPolicy
  import opened RetainedState

  /** The two rows are of one group: the same recipient's, and the same group or, without one, key. */
  predicate Together(a: Row, b: Row) {
    a.recipient + ":" + Label(a) == b.recipient + ":" + Label(b)
  }

  function Label(r: Row): string { if r.groupId.Some? then r.groupId.value else r.key }

  /** Recipients are digests of one length, so a group never mixes two recipients or two labels. */
  lemma GroupsShareRecipientAndLabel(a: Row, b: Row)
    requires |a.recipient| == |b.recipient|
    ensures GroupId(a) == GroupId(b) <==> a.recipient == b.recipient && Label(a) == Label(b)
  {
    var n := |a.recipient|;
    if GroupId(a) == GroupId(b) {
      assert GroupId(a)[..n] == a.recipient && GroupId(b)[..n] == b.recipient;
      assert GroupId(a)[n + 1..] == Label(a) && GroupId(b)[n + 1..] == Label(b);
    }
  }

  // ---- how urgent it is that a group goes ----

  /** The record says the phone was seen within the last week. */
  predicate Records(v: Visit, phone: string, now: int) {
    v.role == "phone" && v.id == phone && v.lastSeenAt > now - 604800000
  }

  /** The phone was last seen at `t`, by the last of its records of the week; 0 stands for none. */
  ghost predicate LastSeen(activity: seq<Visit>, phone: string, now: int, t: int) {
    || (t == 0 && forall v :: v in activity ==> !Records(v, phone, now))
    || exists i :: 0 <= i < |activity| && Records(activity[i], phone, now) && activity[i].lastSeenAt == t
                   && forall j :: i < j < |activity| ==> !Records(activity[j], phone, now)
  }

  /** The phone of the group's first row was last seen at `t`. */
  ghost predicate SeenIs(rows: seq<Row>, activity: seq<Visit>, now: int, r: Row, t: int) {
    exists i :: 0 <= i < |rows| && Together(rows[i], r) && LastSeen(activity, rows[i].recipient, now, t)
                && forall j :: 0 <= j < i ==> !Together(rows[j], r)
  }

  /** The row is one of the group's that are not key grants. */
  predicate BodyOf(x: Row, r: Row) { Together(x, r) && x.priority != 0 }

  ghost predicate HasBody(rows: seq<Row>, r: Row) { exists x :: x in rows && BodyOf(x, r) }

  /** The largest priority number of the bodies; of bare key grants, 2 when the last is linked to a group, else 4. */
  ghost predicate PriorityIs(rows: seq<Row>, r: Row, p: int) {
    if HasBody(rows, r) then
      && (exists x :: x in rows && BodyOf(x, r) && x.priority == p)
      && forall x :: x in rows && BodyOf(x, r) ==> x.priority <= p
    else
      exists i :: 0 <= i < |rows| && Together(rows[i], r)
                  && p == (if rows[i].groupId.Some? && rows[i].groupId.value != "" then 2 else 4)
                  && forall j :: i < j < |rows| ==> !Together(rows[j], r)
  }

  /** The latest save among the bodies, or among all the group's rows when it has none. */
  ghost predicate SavedIs(rows: seq<Row>, r: Row, t: int) {
    if HasBody(rows, r) then
      && (exists x :: x in rows && BodyOf(x, r) && x.savedAt == t)
      && forall x :: x in rows && BodyOf(x, r) ==> x.savedAt <= t
    else
      && (exists x :: x in rows && Together(x, r) && x.savedAt == t)
      && forall x :: x in rows && Together(x, r) ==> x.savedAt <= t
  }

  datatype Urgency = Urgency(seen: int, priority: int, savedAt: int)

  ghost predicate UrgencyIs(rows: seq<Row>, activity: seq<Visit>, now: int, r: Row, u: Urgency) {
    SeenIs(rows, activity, now, r, u.seen) && PriorityIs(rows, r, u.priority) && SavedIs(rows, r, u.savedAt)
  }

  /** The group of `a` has a row before every row of the group of `b`. */
  ghost predicate ComesFirst(rows: seq<Row>, a: Row, b: Row) {
    exists i :: 0 <= i < |rows| && Together(rows[i], a) && forall j :: 0 <= j <= i ==> !Together(rows[j], b)
  }

  /**
   * The group of `a` goes before that of `b`: priority 1 goes last, then the phone seen longest ago,
   * the larger priority number, the older save and the earlier place decide.
   */
  ghost predicate GoesSooner(rows: seq<Row>, activity: seq<Visit>, now: int, a: Row, b: Row) {
    exists u, w :: UrgencyIs(rows, activity, now, a, u) && UrgencyIs(rows, activity, now, b, w) &&
      if (u.priority == 1) != (w.priority == 1) then w.priority == 1
      else if u.seen != w.seen then u.seen < w.seen
      else if u.priority != w.priority then u.priority > w.priority
      else if u.savedAt != w.savedAt then u.savedAt < w.savedAt
      else ComesFirst(rows, a, b)
  }

  // ---- the ranks of the algorithm say the same ----

  lemma {:induction false} SeenAtMeans(activity: seq<Visit>, phone: string, now: int)
    ensures LastSeen(activity, phone, now, SeenAt(activity, phone, now))
  {
    if activity != [] {
      var n := |activity| - 1;
      if !Records(activity[n], phone, now) {
        SeenAtMeans(activity[..n], phone, now);
        assert forall v :: v in activity <==> v in activity[..n] || v == activity[n];
      } else {
        assert activity[n].lastSeenAt == SeenAt(activity, phone, now);
      }
    }
  }

  lemma {:induction false} MaxPriorityMeans(rows: seq<Row>)
    requires rows != []
    ensures exists x :: x in rows && x.priority == MaxPriority(rows)
    ensures forall x :: x in rows ==> x.priority <= MaxPriority(rows)
  {
    var n := |rows| - 1;
    if n > 0 {
      MaxPriorityMeans(rows[..n]);
    }
    assert rows[n] in rows && forall x :: x in rows <==> x in rows[..n] || x == rows[n];
  }

  lemma {:induction false} MaxSavedAtMeans(rows: seq<Row>)
    requires rows != []
    ensures exists x :: x in rows && x.savedAt == MaxSavedAt(rows)
    ensures forall x :: x in rows ==> x.savedAt <= MaxSavedAt(rows)
  {
    var n := |rows| - 1;
    if n > 0 {
      MaxSavedAtMeans(rows[..n]);
    }
    assert rows[n] in rows && forall x :: x in rows <==> x in rows[..n] || x == rows[n];
  }

  /** The first and the last element a filter keeps are the first and the last that satisfy it. */
  lemma {:induction false} FilterEnds<T(!new)>(s: seq<T>, p: T -> bool) returns (i: nat, k: nat)
    requires Filter(s, p) != []
    ensures i < |s| && s[i] == Filter(s, p)[0] && p(s[i]) && forall j :: 0 <= j < i ==> !p(s[j])
    ensures k < |s| && s[k] == Filter(s, p)[|Filter(s, p)| - 1] && p(s[k]) && forall j :: k < j < |s| ==> !p(s[j])
  {
    if Filter(s[1..], p) == [] {
      assert forall j :: 0 < j < |s| ==> s[j] in s[1..];
      i, k := 0, 0;
    } else {
      i, k := FilterEnds(s[1..], p);
      i, k := if p(s[0]) then 0 else i + 1, k + 1;
      assert forall j :: 0 < j < |s| ==> s[j] == s[1..][j - 1];
    }
  }

  function UrgencyOf(g: Rank): Urgency { Urgency(g.seen, g.priority, g.savedAt) }

  lemma MembersMean(rows: seq<Row>, r: Row)
    ensures var m := Members(rows, GroupId(r));
            && (forall x :: x in m <==> x in rows && Together(x, r))
            && forall x :: x in Filter(m, IsBody()) <==> x in rows && BodyOf(x, r)
  {
  }

  lemma RankSeen(rows: seq<Row>, activity: seq<Visit>, now: int, r: Row)
    requires r in rows
    ensures Members(rows, GroupId(r)) != []
    ensures SeenIs(rows, activity, now, r, SeenAt(activity, Members(rows, GroupId(r))[0].recipient, now))
  {
    assert r in Members(rows, GroupId(r));
    var first, last := FilterEnds(rows, InGroup(GroupId(r)));
    SeenAtMeans(activity, rows[first].recipient, now);
    assert Together(rows[first], r);
    assert forall j :: 0 <= j < first ==> !Together(rows[j], r);
    hide LastSeen;
  }

  lemma BarePriority(rows: seq<Row>, r: Row, last: nat)
    requires !HasBody(rows, r) && last < |rows| && Together(rows[last], r)
    requires forall j :: last < j < |rows| ==> !Together(rows[j], r)
    ensures PriorityIs(rows, r, if Truthy(rows[last].groupId) then 2 else 4)
  {
    hide Together, HasBody;
  }

  lemma BodiesPriority(rows: seq<Row>, r: Row, bodies: seq<Row>)
    requires bodies != [] && forall x :: x in bodies <==> x in rows && BodyOf(x, r)
    ensures PriorityIs(rows, r, MaxPriority(bodies))
  {
    hide Together, BodyOf;
    assert bodies[0] in bodies;
    MaxPriorityMeans(bodies);
    assert HasBody(rows, r);
  }

  lemma NoBodies(rows: seq<Row>, r: Row)
    requires forall x :: !(x in rows && BodyOf(x, r))
    ensures !HasBody(rows, r)
  {
  }

  lemma GroupPriorityCases(m: seq<Row>)
    requires m != []
    ensures GroupPriority(m) == if Filter(m, IsBody()) != [] then MaxPriority(Filter(m, IsBody()))
                                else if Truthy(m[|m| - 1].groupId) then 2 else 4
  {
  }

  lemma RankPriority(rows: seq<Row>, r: Row)
    requires r in rows && Members(rows, GroupId(r)) != []
    ensures PriorityIs(rows, r, GroupPriority(Members(rows, GroupId(r))))
  {
    hide PriorityIs, BodyOf, HasBody, Together, Members, Filter, MaxPriority, GroupPriority, GroupId, Truthy;
    var m := Members(rows, GroupId(r));
    var bodies := Filter(m, IsBody());
    MembersMean(rows, r);
    GroupPriorityCases(m);
    if bodies != [] {
      BodiesPriority(rows, r, bodies);
    } else {
      var last := LastTogether(rows, r);
      NoBodies(rows, r);
      BarePriority(rows, r, last);
    }
  }

  lemma LastTogether(rows: seq<Row>, r: Row) returns (last: nat)
    requires Members(rows, GroupId(r)) != []
    ensures var m := Members(rows, GroupId(r)); last < |rows| && rows[last] == m[|m| - 1]
    ensures Together(rows[last], r) && forall j :: last < j < |rows| ==> !Together(rows[j], r)
  {
    var first;
    hide Filter, Together;
    first, last := FilterEnds(rows, InGroup(GroupId(r)));
    forall j | 0 <= j < |rows| ensures InGroup(GroupId(r))(rows[j]) == Together(rows[j], r) {
      GroupMeans(rows[j], r);
    }
  }

  lemma GroupMeans(x: Row, r: Row)
    ensures InGroup(GroupId(r))(x) == Together(x, r)
  {
  }

  lemma RankSaved(rows: seq<Row>, r: Row)
    requires r in rows && Members(rows, GroupId(r)) != []
    ensures SavedIs(rows, r, GroupSavedAt(Members(rows, GroupId(r))))
  {
    var m := Members(rows, GroupId(r));
    var bodies := Filter(m, IsBody());
    MembersMean(rows, r);
    hide Together, Members;
    if bodies != [] {
      assert bodies[0] in bodies;
      MaxSavedAtMeans(bodies);
    } else {
      MaxSavedAtMeans(m);
      assert !HasBody(rows, r);
    }
  }

  /** What the algorithm computes of a group is how urgent the group is. */
  lemma RankMeans(rows: seq<Row>, activity: seq<Visit>, now: int, r: Row)
    requires r in rows
    ensures GroupId(r) in Ids(rows)
    ensures UrgencyIs(rows, activity, now, r, UrgencyOf(RankOf(rows, GroupId(r), activity, now)))
  {
    hide SeenIs, PriorityIs, SavedIs;
    RankSeen(rows, activity, now, r);
    RankPriority(rows, r);
    RankSaved(rows, r);
  }

  lemma LastSeenOnce(activity: seq<Visit>, phone: string, now: int, t: int, u: int)
    requires LastSeen(activity, phone, now, t) && LastSeen(activity, phone, now, u)
    ensures t == u
  {
  }

  /** A group has one urgency only. */
  lemma UrgencyOnce(rows: seq<Row>, activity: seq<Visit>, now: int, r: Row, u: Urgency, w: Urgency)
    requires UrgencyIs(rows, activity, now, r, u) && UrgencyIs(rows, activity, now, r, w)
    ensures u == w
  {
    hide LastSeen, Together, BodyOf, HasBody;
    var i :| 0 <= i < |rows| && Together(rows[i], r) && LastSeen(activity, rows[i].recipient, now, u.seen)
             && forall j :: 0 <= j < i ==> !Together(rows[j], r);
    var k :| 0 <= k < |rows| && Together(rows[k], r) && LastSeen(activity, rows[k].recipient, now, w.seen)
             && forall j :: 0 <= j < k ==> !Together(rows[j], r);
    assert i == k;
    LastSeenOnce(activity, rows[i].recipient, now, u.seen, w.seen);
  }

  // ---- the order of the algorithm says the same ----

  lemma NewGroupComesLast(rows: seq<Row>, a: Row, b: Row)
    requires rows != [] && Together(rows[|rows| - 1], b)
    requires GroupId(a) in Ids(rows[..|rows| - 1]) && GroupId(b) !in Ids(rows[..|rows| - 1])
    ensures ComesFirst(rows, a, b)
  {
    var n := |rows| - 1;
    var x :| x in rows[..n] && GroupId(x) == GroupId(a);
    var i :| 0 <= i < n && rows[i] == x;
    assert Together(rows[i], a);
    forall j | 0 <= j <= i ensures !Together(rows[j], b) {
      assert rows[j] in rows[..n];
    }
  }

  lemma ComesFirstStill(rows: seq<Row>, n: nat, a: Row, b: Row)
    requires n <= |rows| && ComesFirst(rows[..n], a, b)
    ensures ComesFirst(rows, a, b)
  {
    hide Together;
    var less := rows[..n];
    var i :| 0 <= i < |less| && Together(less[i], a) && forall j :: 0 <= j <= i ==> !Together(less[j], b);
    assert Together(rows[i], a);
    forall j | 0 <= j <= i ensures !Together(rows[j], b) {
      assert rows[j] == less[j];
    }
  }

  /** Groups that come first in the map of groups come first among the rows. */
  lemma {:induction false} IdsComeFirst(rows: seq<Row>, a: Row, b: Row)
    requires Precedes(Ids(rows), GroupId(a), GroupId(b))
    ensures ComesFirst(rows, a, b)
  {
    if rows != [] {
      var n := |rows| - 1;
      var ids, prior := Ids(rows), Ids(rows[..n]);
      var i, j :| 0 <= i < j < |ids| && ids[i] == GroupId(a) && ids[j] == GroupId(b);
      assert i < |prior| && prior[i] == GroupId(a);
      hide ComesFirst;
      if j == |prior| {
        assert ids == prior + [GroupId(rows[n])];
        assert GroupId(b) !in prior;
        NewGroupComesLast(rows, a, b);
      } else {
        assert prior[j] == GroupId(b);
        IdsComeFirst(rows[..n], a, b);
        ComesFirstStill(rows, n, a, b);
      }
    }
  }

  lemma OneComesFirst(rows: seq<Row>, a: Row, b: Row)
    ensures !(ComesFirst(rows, a, b) && ComesFirst(rows, b, a))
  {
  }

  /** Where the group of `r` stands in the order. */
  lemma PlaceInOrder(rows: seq<Row>, activity: seq<Visit>, now: int, r: Row) returns (p: nat)
    requires r in rows
    ensures var order := EvictionOrder(rows, activity, now);
            && p < |order| && order[p].id == GroupId(r)
            && UrgencyIs(rows, activity, now, r, UrgencyOf(order[p]))
  {
    var order := EvictionOrder(rows, activity, now);
    EvictionOrderSorted(rows, activity, now);
    RankMeans(rows, activity, now, r);
    hide EvictionOrder, UrgencyIs, RankOf;
    var g :| g in order && g.id == GroupId(r);
    p :| 0 <= p < |order| && order[p] == g;
  }

  lemma TieComesFirst(rows: seq<Row>, activity: seq<Visit>, now: int, a: Row, b: Row, p: nat, q: nat)
    requires var order := EvictionOrder(rows, activity, now);
             p < q < |order| && order[p].id == GroupId(a) && order[q].id == GroupId(b)
    ensures var order := EvictionOrder(rows, activity, now);
            NotAfter(order[p], order[q]) && (NotAfter(order[q], order[p]) ==> ComesFirst(rows, a, b) && !ComesFirst(rows, b, a))
  {
    var order, ranks := EvictionOrder(rows, activity, now), Ranks(rows, activity, now);
    RanksOrdered(ranks);
    SortStable(ranks, NotAfter);
    assert SortedStably(order, ranks, NotAfter);
    var g, h := order[p], order[q];
    assert forall k :: 0 <= k < |ranks| ==> ranks[k].id == Ids(rows)[k];
    hide EvictionOrder, Ranks, RankOf, NotAfter, Sort, Ordering, ComesFirst, Ids;
    if NotAfter(h, g) {
      var i, j :| 0 <= i < j < |ranks| && ranks[i] == g && ranks[j] == h;
      IdsComeFirst(rows, a, b);
      OneComesFirst(rows, a, b);
    }
  }

  /** Of two groups, the one that stands earlier in the order goes sooner. */
  lemma EarlierGoesSooner(rows: seq<Row>, activity: seq<Visit>, now: int, a: Row, b: Row, p: nat, q: nat)
    requires var order := EvictionOrder(rows, activity, now);
             && p < q < |order| && order[p].id == GroupId(a) && order[q].id == GroupId(b)
             && UrgencyIs(rows, activity, now, a, UrgencyOf(order[p]))
             && UrgencyIs(rows, activity, now, b, UrgencyOf(order[q]))
    ensures GoesSooner(rows, activity, now, a, b) && !GoesSooner(rows, activity, now, b, a)
  {
    hide EvictionOrder, UrgencyIs, ComesFirst;
    TieComesFirst(rows, activity, now, a, b, p, q);
    var g, h := EvictionOrder(rows, activity, now)[p], EvictionOrder(rows, activity, now)[q];
    forall u | UrgencyIs(rows, activity, now, a, u) ensures u == UrgencyOf(g) {
      UrgencyOnce(rows, activity, now, a, u, UrgencyOf(g));
    }
    forall w | UrgencyIs(rows, activity, now, b, w) ensures w == UrgencyOf(h) {
      UrgencyOnce(rows, activity, now, b, w, UrgencyOf(h));
    }
  }

  /** The order decides between any two rows: the one of the earlier group goes sooner. */
  lemma PlacesDecide(rows: seq<Row>, activity: seq<Visit>, now: int, a: Row, b: Row) returns (p: nat, q: nat)
    requires a in rows && b in rows
    ensures var order := EvictionOrder(rows, activity, now);
            && p < |order| && order[p].id == GroupId(a) && q < |order| && order[q].id == GroupId(b)
            && UrgencyIs(rows, activity, now, a, UrgencyOf(order[p]))
            && UrgencyIs(rows, activity, now, b, UrgencyOf(order[q]))
    ensures GoesSooner(rows, activity, now, a, b) <==> p < q
  {
    p := PlaceInOrder(rows, activity, now, a);
    q := PlaceInOrder(rows, activity, now, b);
    OrderNamesOnce(rows, activity, now);
    if p == q {
      SameGroupNeverSooner(rows, activity, now, a, b);
    }
    hide EvictionOrder, UrgencyIs, GoesSooner;
    if p < q {
      EarlierGoesSooner(rows, activity, now, a, b, p, q);
    } else if q < p {
      EarlierGoesSooner(rows, activity, now, b, a, q, p);
    }
  }

  lemma SameGroupNeverSooner(rows: seq<Row>, activity: seq<Visit>, now: int, a: Row, b: Row)
    requires GroupId(a) == GroupId(b)
    ensures !GoesSooner(rows, activity, now, a, b)
  {
    assert Together(a, b);
    SameUrgency(rows, activity, now, a, b);
    hide UrgencyIs;
    forall u, w | UrgencyIs(rows, activity, now, a, u) && UrgencyIs(rows, activity, now, b, w) ensures u == w {
      UrgencyOnce(rows, activity, now, b, u, w);
    }
  }

  lemma SameUrgency(rows: seq<Row>, activity: seq<Visit>, now: int, a: Row, b: Row)
    requires Together(a, b)
    ensures forall u :: UrgencyIs(rows, activity, now, a, u) ==> UrgencyIs(rows, activity, now, b, u)
  {
    assert forall x :: Together(x, a) <==> Together(x, b);
  }

  /** The rows that stay at least as long as `x`. */
  ghost function StayingWith(rows: seq<Row>, activity: seq<Visit>, now: int, x: Row): seq<Row> {
    Filter(rows, (y: Row) => !GoesSooner(rows, activity, now, y, x))
  }

  /** The rows stay within 512 rows and 16 MiB. */
  ghost predicate Within(rows: seq<Row>) {
    |rows| <= 512 && Sum(rows, (r: Row) => r.bytes) <= 16777216
  }

  lemma {:induction false} SumOfBytes(rows: seq<Row>)
    ensures Sum(rows, (r: Row) => r.bytes) == Sum(rows, SizeOf)
  {
    if rows != [] {
      SumOfBytes(rows[1..]);
    }
  }

  /** A row survives the eviction exactly when the rows that stay at least as long as it fit the room. */
  lemma SurvivesIffRestFits(rows: seq<Row>, activity: seq<Visit>, now: int, x: Row)
    requires x in rows
    ensures x in Trim(rows, EvictionOrder(rows, activity, now)) <==> Within(StayingWith(rows, activity, now, x))
  {
    var order := EvictionOrder(rows, activity, now);
    var p := PlaceInOrder(rows, activity, now, x);
    OrderNamesOnce(rows, activity, now);
    StayingIsSuffix(rows, activity, now, x, p);
    hide EvictionOrder, UrgencyIs;
    SumOfBytes(StayingWith(rows, activity, now, x));
    var k := EvictedCount(rows, order);
    TrimIsPrefix(rows, order);
    PrefixSurvival(rows, order, x, p, k);
    if p < k {
      ShorterPrefixTooLarge(rows, order, p);
    } else {
      SumMonotone(rows, OutsideGroups(order[..p]), OutsideGroups(order[..k]), SizeOf);
    }
  }

  lemma PrefixSurvival(rows: seq<Row>, order: seq<Rank>, x: Row, p: nat, k: nat)
    requires x in rows && p < |order| && k <= |order| && order[p].id == GroupId(x) && NamesGroupsOnce(order)
    ensures x in WithoutAll(rows, order[..k]) <==> k <= p
    ensures k <= p ==> forall y :: OutsideGroups(order[..p])(y) ==> OutsideGroups(order[..k])(y)
  {
    if p < k {
      assert order[..k][p] == order[p];
    } else {
      assert forall g :: g in order[..k] ==> g in order[..p];
    }
  }

  lemma StayingIsSuffix(rows: seq<Row>, activity: seq<Visit>, now: int, x: Row, p: nat)
    requires x in rows
    requires var order := EvictionOrder(rows, activity, now);
             p < |order| && order[p].id == GroupId(x) && NamesGroupsOnce(order)
    ensures StayingWith(rows, activity, now, x) == WithoutAll(rows, EvictionOrder(rows, activity, now)[..p])
  {
    hide EvictionOrder, UrgencyIs, GoesSooner;
    var order := EvictionOrder(rows, activity, now);
    forall y | y in rows ensures (!GoesSooner(rows, activity, now, y, x)) == OutsideGroups(order[..p])(y) {
      var q, r := PlacesDecide(rows, activity, now, y, x);
      assert r == p;
      PrefixSurvival(rows, order, y, q, p);
    }
    FilterCongruent(rows, (y: Row) => !GoesSooner(rows, activity, now, y, x), OutsideGroups(order[..p]));
  }

  // ---- the policy in closed form ----

  predicate Hex64(s: Option<string>) {
    s.Some? && |s.value| == 64 && forall c :: c in s.value ==> '0' <= c <= '9' || 'a' <= c <= 'f'
  }

  /** The row stands in the slot the envelope names. */
  predicate InSlot(r: Row, e: Envelope) { e.recipientKeyId == Some(r.recipient) && e.stateKey == Some(r.key) }

  /** What is asked of an envelope before its row may enter the cache. */
  ghost predicate Admits(e: Envelope, raw: Text, now: int) {
    && e.from == "machine" && e.to == "phone" && Hex64(e.recipientKeyId) && Hex64(e.stateKey)
    && (e.stateGroup.Some? ==> Hex64(e.stateGroup))
    && e.stateRevision.Some? && 0 <= e.stateRevision.value <= 9007199254740991
    && e.stateRevision.value <= now + 300000
    && e.statePriority.Some? && e.statePriority.value in {0, 1, 2, 3}
    && (e.statePriority.value == 1 || e.stateGroup.Some?)
    && e.expiresAt.Some? && -9007199254740991 <= e.expiresAt.value <= 9007199254740991
    && now < e.expiresAt.value <= now + 604800000
    && Utf8Length(raw) <= 1800000
  }

  /** And of its slot: every unexpired row there is of an older revision. */
  ghost predicate Enters(rows: seq<Row>, e: Envelope, raw: Text, now: int) {
    Admits(e, raw, now) &&
    forall r :: r in rows && InSlot(r, e) && now < r.expiresAt ==> r.revision < e.stateRevision.value
  }

  lemma DigestMeans(s: string)
    ensures ValidDigest(s) <==> Hex64(Some(s))
  {
    if ValidDigest(s) {
      forall c | c in s ensures HexDigit(c) {
        var i :| 0 <= i < |s| && s[i] == c;
      }
    } else if |s| == 64 {
      var i :| 0 <= i < |s| && !HexDigit(s[i]);
      assert s[i] in s;
    }
  }

  lemma AdmissibleMeans(e: Envelope, raw: Text, now: int)
    ensures Admissible(e, raw, now) <==> Admits(e, raw, now)
  {
    forall s: string ensures ValidDigest(s) <==> Hex64(Some(s)) && s != "" {
      DigestMeans(s);
    }
    hide ValidDigest, Hex64, Utf8Length;
  }

  lemma EntersMeans(rows: seq<Row>, e: Envelope, raw: Text, now: int)
    requires UniqueSlots(rows)
    ensures Inserts(rows, e, raw, now) <==> Enters(rows, e, raw, now)
  {
    AdmissibleMeans(e, raw, now);
    if Admissible(e, raw, now) {
      EntersIffUnguarded(rows, e, raw, now);
      assert forall r :: SlotOf(r) == SlotOf(NewRow(e, raw, now)) <==> InSlot(r, e);
    }
    hide Admissible, Admits, UniqueSlots;
  }

  /** The unexpired rows of the other slots, and last the row of the envelope. */
  ghost function Candidates(rows: seq<Row>, e: Envelope, raw: Text, now: int): seq<Row>
    requires Admits(e, raw, now)
  {
    Filter(rows, (r: Row) => now < r.expiresAt && !InSlot(r, e))
    + [Row(e.recipientKeyId.value, e.stateKey.value, e.stateRevision.value, e.statePriority.value,
           e.stateGroup, e.expiresAt.value, now, Utf8Length(raw), raw)]
  }

  lemma {:induction false} DropFirstFilters(rows: seq<Row>, slot: Slot)
    requires UniqueSlots(rows)
    ensures DropFirst(rows, slot) == Filter(rows, (r: Row) => SlotOf(r) != slot)
  {
    if rows != [] {
      HeadDiffers(rows, SlotOf);
      hide UniqueSlots;
      if SlotOf(rows[0]) == slot {
        FilterAll(rows[1..], (r: Row) => SlotOf(r) != slot);
      } else {
        DropFirstFilters(rows[1..], slot);
      }
    }
  }

  lemma CandidatesMean(rows: seq<Row>, e: Envelope, raw: Text, now: int)
    requires UniqueSlots(rows) && Admits(e, raw, now)
    ensures Inserted(Filter(rows, Live(now)), NewRow(e, raw, now)) == Candidates(rows, e, raw, now)
  {
    var slot := SlotOf(NewRow(e, raw, now));
    LiveUnique(rows, now);
    DropFirstFilters(Filter(rows, Live(now)), slot);
    FilterTwice(rows, Live(now), (r: Row) => SlotOf(r) != slot, (r: Row) => now < r.expiresAt && !InSlot(r, e));
    hide Utf8Length, Admits;
  }

  /**
   * The whole policy: an envelope that may not enter leaves the unexpired rows; one that enters
   * leaves those candidates for which the rows that stay at least as long fit the room.
   */
  lemma RetainedExactly(rows: seq<Row>, e: Envelope, raw: Text, now: int, activity: seq<Visit>)
    requires UniqueSlots(rows)
    ensures Retained(rows, e, raw, now, activity) ==
            if !Enters(rows, e, raw, now) then Filter(rows, (r: Row) => now < r.expiresAt)
            else Filter(Candidates(rows, e, raw, now),
                        (x: Row) => Within(StayingWith(Candidates(rows, e, raw, now), activity, now, x)))
  {
    EntersMeans(rows, e, raw, now);
    if !Enters(rows, e, raw, now) {
      FilterCongruent(rows, Live(now), (r: Row) => now < r.expiresAt);
    } else {
      CandidatesMean(rows, e, raw, now);
      var all := Candidates(rows, e, raw, now);
      var order := EvictionOrder(all, activity, now);
      TrimIsPrefix(all, order);
      var staying := (x: Row) => Within(StayingWith(all, activity, now, x));
      var kept := OutsideGroups(order[..EvictedCount(all, order)]);
      forall x | x in all ensures kept(x) == staying(x) {
        SurvivesIffRestFits(all, activity, now, x);
      }
      FilterCongruent(all, kept, staying);
    }
  }

  /**
   * Who goes, of two rows of which one goes and the other stays: never a group of priority 1 before
   * another kind; else the group whose phone was seen longer ago; else the larger priority number;
   * else the older save; else the earlier place.
   */
  lemma LeastUrgentStays(rows: seq<Row>, e: Envelope, raw: Text, now: int, activity: seq<Visit>,
                         gone: Row, kept: Row, u: Urgency, w: Urgency)
    requires UniqueSlots(rows) && Enters(rows, e, raw, now)
    requires gone in Candidates(rows, e, raw, now) && gone !in Retained(rows, e, raw, now, activity)
    requires kept in Retained(rows, e, raw, now, activity)
    requires UrgencyIs(Candidates(rows, e, raw, now), activity, now, gone, u)
    requires UrgencyIs(Candidates(rows, e, raw, now), activity, now, kept, w)
    ensures u.priority == 1 ==> w.priority == 1
    ensures (u.priority == 1) == (w.priority == 1) ==>
              && u.seen <= w.seen
              && (u.seen == w.seen ==> w.priority <= u.priority)
              && (u.seen == w.seen && u.priority == w.priority ==> u.savedAt <= w.savedAt)
    ensures u == w ==> ComesFirst(Candidates(rows, e, raw, now), gone, kept)
  {
    var all := Candidates(rows, e, raw, now);
    EntersMeans(rows, e, raw, now);
    CandidatesMean(rows, e, raw, now);
    RetainedExactly(rows, e, raw, now, activity);
    hide Retained, Enters, UniqueSlots, Candidates, Inserts;
    SoonerGoes(all, activity, now, gone, kept);
    hide UrgencyIs, Within, StayingWith, ComesFirst, Filter;
    forall v | UrgencyIs(all, activity, now, gone, v) ensures v == u {
      UrgencyOnce(all, activity, now, gone, u, v);
    }
    forall v | UrgencyIs(all, activity, now, kept, v) ensures v == w {
      UrgencyOnce(all, activity, now, kept, w, v);
    }
  }

  /** Of two rows with only one that stays, the other goes sooner. */
  lemma SoonerGoes(rows: seq<Row>, activity: seq<Visit>, now: int, gone: Row, kept: Row)
    requires gone in rows && kept in rows
    requires !Within(StayingWith(rows, activity, now, gone)) && Within(StayingWith(rows, activity, now, kept))
    ensures GoesSooner(rows, activity, now, gone, kept)
  {
    if !GoesSooner(rows, activity, now, gone, kept) {
      var p, q := PlacesDecide(rows, activity, now, gone, kept);
      forall y | y in rows && GoesSooner(rows, activity, now, y, kept) ensures GoesSooner(rows, activity, now, y, gone) {
        var r, q' := PlacesDecide(rows, activity, now, y, kept);
        var r', p' := PlacesDecide(rows, activity, now, y, gone);
        OrderNamesOnce(rows, activity, now);
      }
      SumOfBytes(StayingWith(rows, activity, now, gone));
      SumOfBytes(StayingWith(rows, activity, now, kept));
      SumMonotone(rows, (y: Row) => !GoesSooner(rows, activity, now, y, gone), (y: Row) => !GoesSooner(rows, activity, now, y, kept), SizeOf);
    }
  }
}
