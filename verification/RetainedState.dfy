/** The cache policy as the relay runs it, step by step, and what holds over whole runs of it. */
module RetainedState {
  import opened Lists
  import opened Text
  import opened Wire
  import opened RetainedPolicy

  /** A group while it is being collected: its rows, and the rank of the rows so far. */
  datatype Group = Group(rows: seq<Row>, rank: Rank)

  predicate GroupLe(a: Group, b: Group) { NotAfter(a.rank, b.rank) }
  function RankIn(g: Group): Rank { g.rank }

  /** The insertion-ordered map of groups after `rows`. */
  ghost predicate Collected(groups: seq<Group>, rows: seq<Row>, activity: seq<Visit>, now: int) {
    && |groups| == |Ids(rows)|
    && forall i :: 0 <= i < |groups| ==>
         && groups[i].rank == RankOf(rows, Ids(rows)[i], activity, now)
         && groups[i].rows == Members(rows, Ids(rows)[i])
  }

  lemma {:induction false} InsertGroup(x: Group, s: seq<Group>)
    ensures Map(Insert(x, s, GroupLe), RankIn) == Insert(x.rank, Map(s, RankIn), NotAfter)
  {
    MapCons(x, s, RankIn);
    if s != [] && !GroupLe(x, s[0]) {
      InsertGroup(x, s[1..]);
      MapCons(s[0], Insert(x, s[1..], GroupLe), RankIn);
      assert Map(s, RankIn)[1..] == Map(s[1..], RankIn);
    }
  }

  lemma {:induction false} SortGroups(s: seq<Group>)
    ensures Map(Sort(s, GroupLe), RankIn) == Sort(Map(s, RankIn), NotAfter)
  {
    if s != [] {
      SortGroups(s[1..]);
      assert Map(s, RankIn)[1..] == Map(s[1..], RankIn);
      InsertGroup(s[0], Sort(s[1..], GroupLe));
    }
  }

  /** Adding one row changes only its own group, which is new or gains the row at its end. */
  lemma GroupStep(rows: seq<Row>, row: Row, id: string)
    ensures Members(rows + [row], id) == Members(rows, id) + (if GroupId(row) == id then [row] else [])
    ensures Ids(rows + [row]) == Ids(rows) + (if GroupId(row) in Ids(rows) then [] else [GroupId(row)])
  {
    FilterConcat(rows, [row], InGroup(id));
    assert (rows + [row])[..|rows|] == rows;
  }

  lemma NewGroupHasNoMembers(rows: seq<Row>, id: string)
    requires id !in Ids(rows)
    ensures Members(rows, id) == []
  {
    FilterNone(rows, InGroup(id));
  }

  /** `groups.get(id)`: the group's place in the map, or one past its end. */
  method Locate(groups: seq<Group>, id: string) returns (at: nat)
    ensures at <= |groups|
    ensures at < |groups| ==> groups[at].rank.id == id
    ensures forall i :: 0 <= i < at ==> groups[i].rank.id != id
  {
    at := 0;
    while at < |groups| && groups[at].rank.id != id
      invariant at <= |groups|
      invariant forall i :: 0 <= i < at ==> groups[i].rank.id != id
    {
      at := at + 1;
    }
  }

  /** One turn of the collecting loop. */
  method AddRow(groups: seq<Group>, ghost prior: seq<Row>, row: Row, activity: seq<Visit>, now: int)
    returns (next: seq<Group>)
    requires Collected(groups, prior, activity, now)
    ensures Collected(next, prior + [row], activity, now)
  {
    var id := GroupId(row);
    var at := Locate(groups, id);
    assert at < |groups| <==> id in Ids(prior);
    if at < |groups| {
      var members := groups[at].rows + [row];
      next := groups[at := Group(members, Rank(id, GroupPriority(members), GroupSavedAt(members), groups[at].rank.seen))];
    } else {
      NewGroupHasNoMembers(prior, id);
      next := groups + [Group([row], Rank(id, GroupPriority([row]), GroupSavedAt([row]), SeenAt(activity, row.recipient, now)))];
    }
    GroupStep(prior, row, id);
    forall i | 0 <= i < |next|
      ensures next[i].rows == Members(prior + [row], Ids(prior + [row])[i])
      ensures next[i].rank == RankOf(prior + [row], Ids(prior + [row])[i], activity, now)
    {
      GroupStep(prior, row, Ids(prior + [row])[i]);
    }
  }

  /** `evictionGroups`. */
  method EvictionGroups(rows: seq<Row>, activity: seq<Visit>, now: int) returns (order: seq<Group>)
    ensures Map(order, RankIn) == EvictionOrder(rows, activity, now)
    ensures forall i :: 0 <= i < |order| ==> order[i].rows == Members(rows, order[i].rank.id)
  {
    var groups: seq<Group> := [];
    for n := 0 to |rows|
      invariant Collected(groups, rows[..n], activity, now)
    {
      assert rows[..n + 1] == rows[..n] + [rows[n]];
      groups := AddRow(groups, rows[..n], rows[n], activity, now);
    }
    assert rows[..|rows|] == rows;
    CollectedSorts(groups, rows, activity, now);
    order := Sort(groups, GroupLe);
  }

  lemma CollectedSorts(groups: seq<Group>, rows: seq<Row>, activity: seq<Visit>, now: int)
    requires Collected(groups, rows, activity, now)
    ensures var order := Sort(groups, GroupLe);
            && Map(order, RankIn) == EvictionOrder(rows, activity, now)
            && forall i :: 0 <= i < |order| ==> order[i].rows == Members(rows, order[i].rank.id)
  {
    assert Map(groups, RankIn) == Ranks(rows, activity, now);
    SortGroups(groups);
    var order := Sort(groups, GroupLe);
    forall i | 0 <= i < |order| ensures order[i].rows == Members(rows, order[i].rank.id) {
      assert order[i] in groups;
    }
  }

  lemma RemoveGroup(rows: seq<Row>, id: string)
    ensures Sum(Without(rows, id), SizeOf) == Sum(rows, SizeOf) - Sum(Members(rows, id), SizeOf)
  {
    SumSplit(rows, InGroup(id), OutsideGroup(id), SizeOf);
  }

  /** Evicting other groups leaves a group's rows alone. */
  lemma MembersKept(rows: seq<Row>, order: seq<Rank>, id: string)
    requires forall g :: g in order ==> g.id != id
    ensures Members(WithoutAll(rows, order), id) == Members(rows, id)
  {
    FilterTwice(rows, OutsideGroups(order), InGroup(id), InGroup(id));
  }

  lemma TrimUnfold(rows: seq<Row>, order: seq<Rank>, k: nat)
    requires k < |order| && !Fits(rows)
    ensures Trim(rows, order[k..]) == Trim(Without(rows, order[k].id), order[k + 1..])
  {
  }

  lemma WithoutNext(rows: seq<Row>, order: seq<Rank>, k: nat)
    requires k < |order|
    ensures Without(WithoutAll(rows, order[..k]), order[k].id) == WithoutAll(rows, order[..k + 1])
  {
    forall x | x in rows
      ensures OutsideGroups(order[..k + 1])(x) == (OutsideGroups(order[..k])(x) && OutsideGroup(order[k].id)(x))
    {
      assert order[..k + 1] == order[..k] + [order[k]];
      assert forall h :: h in order[..k + 1] <==> h in order[..k] || h == order[k];
    }
    FilterTwice(rows, OutsideGroups(order[..k]), OutsideGroup(order[k].id), OutsideGroups(order[..k + 1]));
  }

  predicate NamesGroupsOnce(order: seq<Rank>) {
    forall i, j :: 0 <= i < j < |order| ==> order[i].id != order[j].id
  }

  lemma {:induction false} InsertNamesOnce(x: Rank, s: seq<Rank>)
    requires NamesGroupsOnce(s) && forall y :: y in s ==> y.id != x.id
    ensures NamesGroupsOnce(Insert(x, s, NotAfter))
  {
    assert forall j :: 0 <= j < |s| ==> s[j] in s;
    if s != [] && !NotAfter(x, s[0]) {
      InsertNamesOnce(x, s[1..]);
      var t := Insert(x, s[1..], NotAfter);
      forall j | 0 <= j < |t| ensures t[j].id != s[0].id {
        assert t[j] == x || t[j] in s[1..];
      }
    }
  }

  lemma {:induction false} SortNamesOnce(s: seq<Rank>)
    requires NamesGroupsOnce(s)
    ensures NamesGroupsOnce(Sort(s, NotAfter))
  {
    if s != [] {
      SortNamesOnce(s[1..]);
      InsertNamesOnce(s[0], Sort(s[1..], NotAfter));
    }
  }

  /** The order names each group once. */
  lemma OrderNamesOnce(rows: seq<Row>, activity: seq<Visit>, now: int)
    ensures NamesGroupsOnce(EvictionOrder(rows, activity, now))
  {
    SortNamesOnce(Ranks(rows, activity, now));
  }

  /** One turn of the evicting loop, on the specification's side. */
  lemma EvictStep(candidates: seq<Row>, order: seq<Rank>, k: nat)
    requires k < |order| && NamesGroupsOnce(order)
    ensures var rows := WithoutAll(candidates, order[..k]);
            && Members(rows, order[k].id) == Members(candidates, order[k].id)
            && Without(rows, order[k].id) == WithoutAll(candidates, order[..k + 1])
            && Sum(Without(rows, order[k].id), SizeOf) == Sum(rows, SizeOf) - Sum(Members(rows, order[k].id), SizeOf)
            && (!Fits(rows) ==> Trim(rows, order[k..]) == Trim(Without(rows, order[k].id), order[k + 1..]))
  {
    var rows := WithoutAll(candidates, order[..k]);
    MembersKept(candidates, order[..k], order[k].id);
    WithoutNext(candidates, order, k);
    RemoveGroup(rows, order[k].id);
    if !Fits(rows) {
      TrimUnfold(rows, order, k);
    }
  }

  /** Filtering by identity against a group's rows is filtering by group. */
  lemma RemovingRowsRemovesGroup(rows: seq<Row>, id: string)
    ensures Filter(rows, (r: Row) => r !in Members(rows, id)) == Without(rows, id)
  {
    FilterCongruent(rows, (r: Row) => r !in Members(rows, id), OutsideGroup(id));
  }

  /** The eviction loop of `retainState`, with its running total. */
  method EvictGroups(candidates: seq<Row>, groups: seq<Group>, ghost order: seq<Rank>) returns (result: seq<Row>)
    requires Map(groups, RankIn) == order && NamesGroupsOnce(order)
    requires forall i :: 0 <= i < |groups| ==> groups[i].rows == Members(candidates, groups[i].rank.id)
    ensures result == Trim(candidates, order)
  {
    result := candidates;
    var total := Sum(result, SizeOf);
    FilterAll(candidates, OutsideGroups([]));
    assert order[..0] == [] && order[0..] == order;
    var k := 0;
    while k < |groups|
      invariant 0 <= k <= |groups|
      invariant result == WithoutAll(candidates, order[..k])
      invariant total == Sum(result, SizeOf)
      invariant Trim(result, order[k..]) == Trim(candidates, order)
    {
      if |result| <= STATE_ROOM_SLOTS && total <= STATE_ROOM_BYTES {
        return;
      }
      var removed := groups[k].rows;
      assert groups[k].rank == order[k];
      EvictStep(candidates, order, k);
      RemovingRowsRemovesGroup(result, order[k].id);
      result := Filter(result, (r: Row) => r !in removed);
      total := total - Sum(removed, SizeOf);
      k := k + 1;
    }
    assert order[|order|..] == [];
  }

  /** `retainState`. */
  method RetainState(rows: seq<Row>, e: Envelope, raw: Text, now: int, activity: seq<Visit>) returns (result: seq<Row>)
    ensures result == Retained(rows, e, raw, now, activity)
  {
    var live := Filter(rows, Live(now));
    if !Truthy(e.stateKey) || !ValidRetainedState(e, now) || e.expiresAt.value <= now {
      return live;
    }
    // Legacy unlinked keys and heads stay deliverable but do not enter the cache.
    if e.statePriority.value != 1 && !Truthy(e.stateGroup) {
      return live;
    }
    var bytes := Utf8Length(raw);
    if bytes > STATE_FRAME_BYTES {
      return live;
    }
    var slot := (e.recipientKeyId.value, e.stateKey.value);
    var existing := Find(live, slot);
    if existing.Some? && existing.value.revision >= e.stateRevision.value {
      return live;
    }
    result := DropFirst(live, slot);
    result := result + [Row(e.recipientKeyId.value, e.stateKey.value, e.stateRevision.value,
                            e.statePriority.value, e.stateGroup, e.expiresAt.value, now, bytes, raw)];
    var groups := EvictionGroups(result, activity, now);
    OrderNamesOnce(result, activity, now);
    result := EvictGroups(result, groups, EvictionOrder(result, activity, now));
  }

  // ---- whole runs ----

  datatype Replacement = Replacement(e: Envelope, raw: Text, now: int, activity: seq<Visit>)

  function Replaced(rows: seq<Row>, r: Replacement): seq<Row> {
    Retained(rows, r.e, r.raw, r.now, r.activity)
  }

  predicate StepsAt(h: seq<seq<Row>>, run: seq<Replacement>, k: nat)
    requires k < |run| && |h| == |run| + 1
  {
    h[k + 1] == Replaced(h[k], run[k])
  }

  /** The caches a run passes through, from the empty room on. */
  function Caches(run: seq<Replacement>): (h: seq<seq<Row>>)
    ensures |h| == |run| + 1 && h[0] == []
    ensures forall k :: 0 <= k < |run| ==> StepsAt(h, run, k)
  {
    if run == [] then [[]] else
      var n := |run| - 1;
      var h := Caches(run[..n]);
      var r := h + [Replaced(h[n], run[n])];
      assert forall k :: 0 <= k < n ==> StepsAt(r, run, k) by {
        forall k | 0 <= k < n ensures StepsAt(r, run, k) {
          assert StepsAt(h, run[..n], k);
        }
      }
      r
  }

  /** Slots are unique, both bounds hold and sizes are the true sizes. */
  predicate SoundCache(rows: seq<Row>) {
    UniqueSlots(rows) && Fits(rows) && forall r :: r in rows ==> r.bytes == Utf8Length(r.raw) <= STATE_FRAME_BYTES
  }

  lemma ReplacedSound(rows: seq<Row>, r: Replacement)
    requires SoundCache(rows)
    ensures SoundCache(Replaced(rows, r))
  {
    RetainedStep(rows, r.e, r.raw, r.now, r.activity);
    RetainedWithinBounds(rows, r.e, r.raw, r.now, r.activity);
    hide Retained, Fits, Rises, UniqueSlots;
  }

  /** Every reachable cache is sound. */
  lemma {:induction false} ReachableCache(run: seq<Replacement>, k: nat)
    requires k <= |run|
    ensures SoundCache(Caches(run)[k])
  {
    if k > 0 {
      hide Replaced, SoundCache;
      ReachableCache(run, k - 1);
      assert StepsAt(Caches(run), run, k - 1);
      ReplacedSound(Caches(run)[k - 1], run[k - 1]);
    }
  }

  lemma RunRises(run: seq<Replacement>, k: nat)
    requires k < |run|
    ensures Rises(Caches(run)[k], Caches(run)[k + 1], run[k].now)
  {
    ReachableCache(run, k);
    assert StepsAt(Caches(run), run, k);
    RetainedStep(Caches(run)[k], run[k].e, run[k].raw, run[k].now, run[k].activity);
  }

  /** The `k`-th row of the path is in its cache, in the path's slot, and unexpired when it is next replaced. */
  predicate HeldAt(run: seq<Replacement>, i: nat, path: seq<Row>, k: nat)
    requires k < |path| && i + |path| - 1 <= |run|
  {
    && path[k] in Caches(run)[i + k] && SlotOf(path[k]) == SlotOf(path[0])
    && (k + 1 < |path| ==> !Expired(path[k], run[i + k].now))
  }

  /** From the `i`-th cache on, the slot holds these rows. */
  ghost predicate HeldBy(run: seq<Replacement>, i: nat, path: seq<Row>) {
    path != [] && i + |path| - 1 <= |run| && forall k :: 0 <= k < |path| ==> HeldAt(run, i, path, k)
  }

  /** While a slot stays held by unexpired rows, its row only changes to strictly newer revisions. */
  lemma {:induction false} RevisionsRise(run: seq<Replacement>, i: nat, path: seq<Row>)
    requires HeldBy(run, i, path)
    ensures path[|path| - 1] == path[0] || path[0].revision < path[|path| - 1].revision
    decreases path
  {
    var n := |path| - 1;
    if n > 0 {
      hide Caches;
      ShorterPath(run, i, path);
      RevisionsRise(run, i, path[..n]);
      RunRises(run, i + n - 1);
      assert HeldAt(run, i, path, n - 1) && HeldAt(run, i, path, n);
      RisesHere(Caches(run)[i + n - 1], Caches(run)[i + n], run[i + n - 1].now, path[n - 1], path[n]);
    }
  }

  lemma ShorterPath(run: seq<Replacement>, i: nat, path: seq<Row>)
    requires HeldBy(run, i, path) && |path| > 1
    ensures HeldBy(run, i, path[..|path| - 1])
  {
    hide Caches;
    var shorter := path[..|path| - 1];
    forall k | 0 <= k < |path| - 1 ensures HeldAt(run, i, shorter, k) {
      assert HeldAt(run, i, path, k);
    }
  }

  lemma RisesHere(before: seq<Row>, after: seq<Row>, now: int, a: Row, b: Row)
    requires Rises(before, after, now) && a in before && b in after && SlotOf(a) == SlotOf(b) && !Expired(a, now)
    ensures a == b || a.revision < b.revision
  {
  }

  function Sample(revision: int, expiresAt: int): Envelope {
    var digest := seq(64, _ => 'a');
    Envelope(true, 1, digest, "machine", "phone", "m", None, Some(expiresAt), None, None,
             Some(digest), Some(digest), Some(revision), Some(1), None, None, {})
  }

  function SampleRow(revision: int, savedAt: int, expiresAt: int): Row {
    NewRow(Sample(revision, expiresAt), [], savedAt)
  }

  lemma SampleStep(rows: seq<Row>, revision: int, now: int, expiresAt: int)
    requires Filter(rows, Live(now)) == []
    requires 0 <= revision <= now + 300000 && 0 <= now < expiresAt <= 1000 && revision <= 1000
    ensures Replaced(rows, Replacement(Sample(revision, expiresAt), [], now, [])) == [SampleRow(revision, now, expiresAt)]
  {
    var e, row := Sample(revision, expiresAt), SampleRow(revision, now, expiresAt);
    assert ValidDigest(e.stateKey.value);
    assert Inserts(rows, e, [], now);
    assert Inserted([], row) == [row];
    assert Fits([row]);
  }

  /**
   * Holding the slot is not enough: a row that is still stored but has expired is replaced by
   * any revision, here revision 9 by revision 1.
   */
  lemma ExpiredRowLosesItsRevision()
    ensures var h := Caches([Replacement(Sample(9, 10), [], 0, []), Replacement(Sample(1, 20), [], 10, [])]);
            && |h[1]| == |h[2]| == 1 && SlotOf(h[1][0]) == SlotOf(h[2][0])
            && h[1][0].revision == 9 && h[2][0].revision == 1
  {
    var run := [Replacement(Sample(9, 10), [], 0, []), Replacement(Sample(1, 20), [], 10, [])];
    var h := Caches(run);
    assert StepsAt(h, run, 0) && StepsAt(h, run, 1);
    SampleStep([], 9, 0, 10);
    assert h[1] == [SampleRow(9, 0, 10)];
    assert Filter(h[1], Live(10)) == [];
    SampleStep(h[1], 1, 10, 20);
    assert h[2] == [SampleRow(1, 10, 20)];
  }

  // ---- reading back ----

  predicate ReplayLe(a: Row, b: Row) {
    if a.priority != b.priority then a.priority < b.priority else a.revision <= b.revision
  }

  function ForRecipient(recipient: string, now: int): Row -> bool {
    (r: Row) => r.recipient == recipient && !Expired(r, now)
  }

  /** `replayState`. */
  function Replay(rows: seq<Row>, recipient: string, now: int): seq<Row> {
    if !ValidDigest(recipient) then [] else Sort(Filter(rows, ForRecipient(recipient, now)), ReplayLe)
  }

  lemma {:induction false} FilterPrecedes<T(!new)>(s: seq<T>, p: T -> bool, a: T, b: T)
    requires Precedes(Filter(s, p), a, b)
    ensures Precedes(s, a, b)
  {
    var kept := Filter(s, p);
    var i, j :| 0 <= i < j < |kept| && kept[i] == a && kept[j] == b;
    if p(s[0]) && i == 0 {
      assert b == Filter(s[1..], p)[j - 1];
      PrecedesFirst(s[0], s[1..], b);
    } else {
      var less := if p(s[0]) then 1 else 0;
      assert Filter(s[1..], p)[i - less] == a && Filter(s[1..], p)[j - less] == b;
      FilterPrecedes(s[1..], p, a, b);
      PrecedesLater(s[0], s[1..], a, b);
    }
    assert s == [s[0]] + s[1..];
  }

  /**
   * A returning phone gets exactly its own unexpired rows, each as often as it is stored: smaller
   * priority numbers first, then older revisions, and rows alike in both as they are stored.
   */
  lemma ReplayExact(rows: seq<Row>, recipient: string, now: int)
    ensures var replayed := Replay(rows, recipient, now);
            if !ValidDigest(recipient) then replayed == []
            else
              && multiset(replayed) == multiset(Filter(rows, (r: Row) => r.recipient == recipient && now < r.expiresAt))
              && (forall i, j :: 0 <= i < j < |replayed| ==>
                    || replayed[i].priority < replayed[j].priority
                    || (replayed[i].priority == replayed[j].priority
                        && (|| replayed[i].revision < replayed[j].revision
                            || (replayed[i].revision == replayed[j].revision && Precedes(rows, replayed[i], replayed[j])))))
  {
    if ValidDigest(recipient) {
      var own := Filter(rows, ForRecipient(recipient, now));
      FilterCongruent(rows, ForRecipient(recipient, now), (r: Row) => r.recipient == recipient && now < r.expiresAt);
      SortStable(own, ReplayLe);
      var replayed := Sort(own, ReplayLe);
      assert SortedStably(replayed, own, ReplayLe);
      hide Sort, Filter;
      forall i, j | 0 <= i < j < |replayed| && ReplayLe(replayed[j], replayed[i])
        ensures Precedes(rows, replayed[i], replayed[j])
      {
        FilterPrecedes(rows, ForRecipient(recipient, now), replayed[i], replayed[j]);
      }
    }
  }
}
