/**
 * The latest-state cache of one room: which rows survive when a replacement arrives.
 * Rows are kept in insertion order; a group is evicted whole or not at all.
 */
module RetainedPolicy {
  import opened Lists
  import opened Text
  import opened Wire

  const STATE_ROOM_BYTES := 16 * 1024 * 1024
  const STATE_ROOM_SLOTS := 512
  const STATE_FRAME_BYTES := 1800000

  datatype Row = Row(
    recipient: string, key: string, revision: int, priority: int, groupId: Option<string>,
    expiresAt: int, savedAt: int, bytes: nat, raw: Text)

  /** One presence record: when a device of the room was last seen. */
  datatype Visit = Visit(role: string, id: string, lastSeenAt: int)

  type Slot = (string, string)

  function SlotOf(r: Row): Slot { (r.recipient, r.key) }
  function Metadata(r: Row): Row { r.(raw := []) }
  function SizeOf(r: Row): nat { r.bytes }
  predicate Expired(r: Row, now: int) { r.expiresAt <= now }
  function Live(now: int): Row -> bool { (r: Row) => !Expired(r, now) }
  predicate UniqueSlots(rows: seq<Row>) { UniqueBy(rows, SlotOf) }

  /** `rows.find(row => ... same slot)`. */
  function Find(rows: seq<Row>, slot: Slot): (r: Option<Row>)
    ensures r.Some? ==> r.value in rows && SlotOf(r.value) == slot
    ensures r.None? ==> forall x :: x in rows ==> SlotOf(x) != slot
  {
    if rows == [] then None
    else if SlotOf(rows[0]) == slot then Some(rows[0])
    else Find(rows[1..], slot)
  }

  /** `rows.filter(row => row !== existing)` for the row `Find` returned. */
  function DropFirst(rows: seq<Row>, slot: Slot): (r: seq<Row>)
    ensures forall x :: x in r ==> x in rows
  {
    if rows == [] then []
    else if SlotOf(rows[0]) == slot then rows[1..]
    else [rows[0]] + DropFirst(rows[1..], slot)
  }

  // ---- groups and their eviction rank ----

  function GroupId(r: Row): string {
    r.recipient + ":" + (if r.groupId.Some? then r.groupId.value else r.key)
  }

  function InGroup(id: string): Row -> bool { (r: Row) => GroupId(r) == id }
  function OutsideGroup(id: string): Row -> bool { (r: Row) => GroupId(r) != id }
  function IsBody(): Row -> bool { (r: Row) => r.priority != 0 }

  function Members(rows: seq<Row>, id: string): seq<Row> { Filter(rows, InGroup(id)) }
  function Without(rows: seq<Row>, id: string): seq<Row> { Filter(rows, OutsideGroup(id)) }

  /** Group identities in order of first appearance: the keys of the insertion-ordered map. */
  function Ids(rows: seq<Row>): (r: seq<string>)
    ensures forall id :: id in r <==> exists x :: x in rows && GroupId(x) == id
    ensures Distinct(r)
  {
    if rows == [] then [] else
      var n := |rows| - 1;
      var prior := Ids(rows[..n]);
      assert forall x :: x in rows <==> x in rows[..n] || x == rows[n];
      if GroupId(rows[n]) in prior then prior else prior + [GroupId(rows[n])]
  }

  function Larger(a: int, b: int): int { if a < b then b else a }

  function MaxPriority(rows: seq<Row>): int
    requires rows != []
  {
    if |rows| == 1 then rows[0].priority
    else Larger(MaxPriority(rows[..|rows| - 1]), rows[|rows| - 1].priority)
  }

  function MaxSavedAt(rows: seq<Row>): int
    requires rows != []
  {
    if |rows| == 1 then rows[0].savedAt
    else Larger(MaxSavedAt(rows[..|rows| - 1]), rows[|rows| - 1].savedAt)
  }

  /** When a phone was last seen, 0 unless within the retention week; later records win. */
  function SeenAt(activity: seq<Visit>, id: string, now: int): int {
    if activity == [] then 0 else
      var last := activity[|activity| - 1];
      if last.id == id && last.role == "phone" && last.lastSeenAt > now - STATE_TTL_MS then last.lastSeenAt
      else SeenAt(activity[..|activity| - 1], id, now)
  }

  datatype Rank = Rank(id: string, priority: int, savedAt: int, seen: int)

  /** JavaScript truth of an optional string. */
  predicate Truthy(s: Option<string>) { s.Some? && s.value != "" }

  function GroupPriority(members: seq<Row>): int
    requires members != []
  {
    var bodies := Filter(members, IsBody());
    if bodies != [] then MaxPriority(bodies)
    else if Truthy(members[|members| - 1].groupId) then 2 else 4
  }

  function GroupSavedAt(members: seq<Row>): int
    requires members != []
  {
    var bodies := Filter(members, IsBody());
    MaxSavedAt(if bodies != [] then bodies else members)
  }

  function RankOf(rows: seq<Row>, id: string, activity: seq<Visit>, now: int): Rank
    requires id in Ids(rows)
  {
    var m := Members(rows, id);
    assert m != [] by {
      var x :| x in rows && GroupId(x) == id;
      assert x in m;
    }
    Rank(id, GroupPriority(m), GroupSavedAt(m), SeenAt(activity, m[0].recipient, now))
  }

  function Ranks(rows: seq<Row>, activity: seq<Visit>, now: int): (r: seq<Rank>)
    ensures |r| == |Ids(rows)|
    ensures forall i :: 0 <= i < |r| ==> r[i] == RankOf(rows, Ids(rows)[i], activity, now)
  {
    var ids := Ids(rows);
    seq(|ids|, i requires 0 <= i < |ids| => RankOf(rows, ids[i], activity, now))
  }

  predicate Essential(g: Rank) { g.priority == 1 }

  /** Evicted strictly earlier: not essential, then long unseen, then high priority number, then old. */
  predicate Before(a: Rank, b: Rank) {
    if Essential(a) != Essential(b) then Essential(b)
    else if a.seen != b.seen then a.seen < b.seen
    else if a.priority != b.priority then b.priority < a.priority
    else a.savedAt < b.savedAt
  }

  predicate NotAfter(a: Rank, b: Rank) { !Before(b, a) }

  function EvictionOrder(rows: seq<Row>, activity: seq<Visit>, now: int): seq<Rank> {
    Sort(Ranks(rows, activity, now), NotAfter)
  }

  // ---- the policy ----

  predicate Fits(rows: seq<Row>) {
    |rows| <= STATE_ROOM_SLOTS && Sum(rows, SizeOf) <= STATE_ROOM_BYTES
  }

  /** Every row's recorded size is the UTF-8 size of its text. */
  ghost predicate TrueSizes(rows: seq<Row>) {
    forall r :: r in rows ==> r.bytes == Utf8Length(r.raw)
  }

  /** Evicts whole groups in order until the rows fit. */
  function Trim(rows: seq<Row>, order: seq<Rank>): seq<Row>
    decreases order
  {
    if order == [] || Fits(rows) then rows else Trim(Without(rows, order[0].id), order[1..])
  }

  function NewRow(e: Envelope, raw: Text, now: int): Row
    requires e.recipientKeyId.Some? && e.stateKey.Some? && e.stateRevision.Some?
    requires e.statePriority.Some? && e.expiresAt.Some?
  {
    Row(e.recipientKeyId.value, e.stateKey.value, e.stateRevision.value, e.statePriority.value,
        e.stateGroup, e.expiresAt.value, now, Utf8Length(raw), raw)
  }

  /** The envelope asks for retention and may enter the cache, whatever is there already. */
  predicate Admissible(e: Envelope, raw: Text, now: int) {
    && Truthy(e.stateKey) && ValidRetainedState(e, now) && e.expiresAt.value > now
    && (e.statePriority.value == 1 || Truthy(e.stateGroup))
    && Utf8Length(raw) <= STATE_FRAME_BYTES
  }

  predicate Superseded(live: seq<Row>, row: Row) {
    var existing := Find(live, SlotOf(row));
    existing.Some? && existing.value.revision >= row.revision
  }

  /** The rows just after the replacement, before anything is evicted. */
  function Inserted(live: seq<Row>, row: Row): seq<Row> {
    DropFirst(live, SlotOf(row)) + [row]
  }

  predicate Inserts(rows: seq<Row>, e: Envelope, raw: Text, now: int) {
    Admissible(e, raw, now) && !Superseded(Filter(rows, Live(now)), NewRow(e, raw, now))
  }

  /** What `retainState` returns. */
  function Retained(rows: seq<Row>, e: Envelope, raw: Text, now: int, activity: seq<Visit>): seq<Row> {
    var live := Filter(rows, Live(now));
    if !Inserts(rows, e, raw, now) then live
    else
      var candidates := Inserted(live, NewRow(e, raw, now));
      Trim(candidates, EvictionOrder(candidates, activity, now))
  }

  // ---- the rank order ----

  lemma RanksOrdered(s: seq<Rank>)
    ensures Ordering(s, NotAfter)
  {
  }

  /**
   * One group goes before another: no group of priority 1 before another kind; else that of the phone
   * seen longer ago; else the larger priority number; else the older save; else the one found first.
   */
  ghost predicate GoesFirst(rows: seq<Row>, activity: seq<Visit>, now: int, g: Rank, h: Rank) {
    && (g.priority == 1 ==> h.priority == 1)
    && ((g.priority == 1 <==> h.priority == 1) ==>
          && g.seen <= h.seen
          && (g.seen == h.seen ==> h.priority <= g.priority)
          && (g.seen == h.seen && g.priority == h.priority ==> g.savedAt <= h.savedAt)
          && (g.seen == h.seen && g.priority == h.priority && g.savedAt == h.savedAt ==> Precedes(Ranks(rows, activity, now), g, h)))
  }

  lemma OrderGoesFirst(rows: seq<Row>, activity: seq<Visit>, now: int)
    ensures var order := EvictionOrder(rows, activity, now);
            forall i, j :: 0 <= i < j < |order| ==> GoesFirst(rows, activity, now, order[i], order[j])
  {
    var ranks := Ranks(rows, activity, now);
    RanksOrdered(ranks);
    SortStable(ranks, NotAfter);
    hide Sort, Ordering, Precedes, Ranks;
  }

  /** The order lists every group once, earliest eviction first. */
  lemma EvictionOrderSorted(rows: seq<Row>, activity: seq<Visit>, now: int)
    ensures Sorted(EvictionOrder(rows, activity, now), NotAfter)
    ensures forall r :: r in rows ==> exists g :: g in EvictionOrder(rows, activity, now) && g.id == GroupId(r)
    ensures forall g :: g in EvictionOrder(rows, activity, now)
              ==> g.id in Ids(rows) && g == RankOf(rows, g.id, activity, now)
    ensures var order := EvictionOrder(rows, activity, now);
            forall i, j :: 0 <= i < j < |order| ==> GoesFirst(rows, activity, now, order[i], order[j])
  {
    var ranks := Ranks(rows, activity, now);
    RanksOrdered(ranks);
    SortSorted(ranks, NotAfter);
    OrderGoesFirst(rows, activity, now);
    forall r | r in rows ensures exists g :: g in EvictionOrder(rows, activity, now) && g.id == GroupId(r) {
      assert GroupId(r) in Ids(rows);
      var i :| 0 <= i < |Ids(rows)| && Ids(rows)[i] == GroupId(r);
      assert ranks[i] in EvictionOrder(rows, activity, now);
    }
  }

  // ---- exact eviction ----

  function OutsideGroups(order: seq<Rank>): Row -> bool {
    (r: Row) => forall g :: g in order ==> g.id != GroupId(r)
  }

  /** `rows` less every row of the groups in `order`. */
  function WithoutAll(rows: seq<Row>, order: seq<Rank>): seq<Row> { Filter(rows, OutsideGroups(order)) }

  /** How many groups `Trim` evicts. */
  function EvictedCount(rows: seq<Row>, order: seq<Rank>): (k: nat)
    ensures k <= |order|
    decreases order
  {
    if order == [] || Fits(rows) then 0 else 1 + EvictedCount(Without(rows, order[0].id), order[1..])
  }

  lemma WithoutStep(rows: seq<Row>, g: Rank, rest: seq<Rank>)
    ensures WithoutAll(Without(rows, g.id), rest) == WithoutAll(rows, [g] + rest)
  {
    forall x | x in rows
      ensures OutsideGroups([g] + rest)(x) == (OutsideGroup(g.id)(x) && OutsideGroups(rest)(x))
    {
      assert g in [g] + rest;
      assert forall h :: h in [g] + rest <==> h == g || h in rest;
    }
    FilterTwice(rows, OutsideGroup(g.id), OutsideGroups(rest), OutsideGroups([g] + rest));
  }

  lemma {:induction false} TrimIsPrefix(rows: seq<Row>, order: seq<Rank>)
    ensures Trim(rows, order) == WithoutAll(rows, order[..EvictedCount(rows, order)])
    ensures EvictedCount(rows, order) < |order| ==> Fits(Trim(rows, order))
    decreases order
  {
    if order == [] || Fits(rows) {
      FilterAll(rows, OutsideGroups([]));
      assert order[..0] == [];
    } else {
      var rest := Without(rows, order[0].id);
      var k := EvictedCount(rest, order[1..]);
      TrimIsPrefix(rest, order[1..]);
      WithoutStep(rows, order[0], order[1..][..k]);
      assert order[..k + 1] == [order[0]] + order[1..][..k];
    }
  }

  lemma {:induction false} ShorterPrefixTooLarge(rows: seq<Row>, order: seq<Rank>, j: nat)
    requires j < EvictedCount(rows, order)
    ensures !Fits(WithoutAll(rows, order[..j]))
    decreases order
  {
    if j == 0 {
      FilterAll(rows, OutsideGroups([]));
      assert order[..0] == [];
    } else {
      ShorterPrefixTooLarge(Without(rows, order[0].id), order[1..], j - 1);
      WithoutStep(rows, order[0], order[1..][..j - 1]);
      assert order[..j] == [order[0]] + order[1..][..j - 1];
    }
  }

  /**
   * Eviction takes the shortest prefix of the order that makes the rows fit (or all of it),
   * and takes every row of the groups in that prefix and no other row.
   */
  lemma TrimIsShortestPrefix(rows: seq<Row>, order: seq<Rank>)
    ensures var k := EvictedCount(rows, order);
            && Trim(rows, order) == WithoutAll(rows, order[..k])
            && (k < |order| ==> Fits(Trim(rows, order)))
            && forall j :: 0 <= j < k ==> !Fits(WithoutAll(rows, order[..j]))
  {
    TrimIsPrefix(rows, order);
    forall j | 0 <= j < EvictedCount(rows, order) ensures !Fits(WithoutAll(rows, order[..j])) {
      ShorterPrefixTooLarge(rows, order, j);
    }
  }

  lemma TrimFits(rows: seq<Row>, order: seq<Rank>)
    requires forall r :: r in rows ==> exists g :: g in order && g.id == GroupId(r)
    ensures Fits(Trim(rows, order))
  {
    TrimIsShortestPrefix(rows, order);
    if EvictedCount(rows, order) == |order| {
      assert order[..|order|] == order;
      FilterNone(rows, OutsideGroups(order));
    }
  }

  /** After any insertion the cache holds at most 512 rows and 16 MiB. */
  lemma RetainedWithinBounds(rows: seq<Row>, e: Envelope, raw: Text, now: int, activity: seq<Visit>)
    ensures Inserts(rows, e, raw, now) ==> Fits(Retained(rows, e, raw, now, activity))
    ensures Fits(rows) ==> Fits(Retained(rows, e, raw, now, activity))
  {
    var live := Filter(rows, Live(now));
    if Inserts(rows, e, raw, now) {
      var candidates := Inserted(live, NewRow(e, raw, now));
      EvictionOrderSorted(candidates, activity, now);
      TrimFits(candidates, EvictionOrder(candidates, activity, now));
    } else {
      SumMonotone(rows, Live(now), (r: Row) => true, SizeOf);
      FilterAll(rows, (r: Row) => true);
    }
  }

  /** An evicted row's group stands in the order before a surviving row's group. */
  lemma TrimKeepsLaterGroups(rows: seq<Row>, order: seq<Rank>, gone: Row, kept: Row) returns (g: Rank, h: Rank)
    requires Sorted(order, NotAfter)
    requires forall r :: r in rows ==> exists g :: g in order && g.id == GroupId(r)
    requires gone in rows && gone !in Trim(rows, order) && kept in Trim(rows, order)
    ensures kept in rows && g in order && h in order
    ensures g.id == GroupId(gone) && h.id == GroupId(kept) && g.id != h.id && NotAfter(g, h)
  {
    TrimIsPrefix(rows, order);
    var k := EvictedCount(rows, order);
    assert !OutsideGroups(order[..k])(gone);
    g :| g in order[..k] && g.id == GroupId(gone);
    var i :| 0 <= i < k && order[i] == g;
    assert OutsideGroups(order[..k])(kept);
    h :| h in order && h.id == GroupId(kept);
    var j :| 0 <= j < |order| && order[j] == h;
    assert forall m :: 0 <= m < k ==> order[m] in order[..k];
  }

  /**
   * Who is evicted: of two candidate rows, when one goes and the other stays, they are in
   * different groups, and the group of the one that goes is of priority 1 only if the other's is too;
   * else its phone was not seen later, and at equal sight its priority number is not smaller, and at
   * equal priority its latest save is not newer.
   */
  lemma EvictionRespectsRank(rows: seq<Row>, e: Envelope, raw: Text, now: int, activity: seq<Visit>, gone: Row, kept: Row)
    requires Inserts(rows, e, raw, now)
    requires gone in Inserted(Filter(rows, Live(now)), NewRow(e, raw, now))
    requires gone !in Retained(rows, e, raw, now, activity)
    requires kept in Retained(rows, e, raw, now, activity)
    ensures var candidates := Inserted(Filter(rows, Live(now)), NewRow(e, raw, now));
            && kept in candidates && GroupId(gone) != GroupId(kept)
            && var g, h := RankOf(candidates, GroupId(gone), activity, now), RankOf(candidates, GroupId(kept), activity, now);
               && !Before(h, g) && (g.priority == 1 ==> h.priority == 1)
               && ((g.priority == 1 <==> h.priority == 1) ==>
                     && g.seen <= h.seen
                     && (g.seen == h.seen ==> h.priority <= g.priority)
                     && (g.seen == h.seen && g.priority == h.priority ==> g.savedAt <= h.savedAt))
  {
    var candidates := Inserted(Filter(rows, Live(now)), NewRow(e, raw, now));
    var order := EvictionOrder(candidates, activity, now);
    EvictionOrderSorted(candidates, activity, now);
    var g, h := TrimKeepsLaterGroups(candidates, order, gone, kept);
  }

  // ---- slots and revisions ----

  lemma {:induction false} DropFirstUnique(rows: seq<Row>, slot: Slot)
    requires UniqueSlots(rows)
    ensures UniqueSlots(DropFirst(rows, slot))
    ensures forall x :: x in DropFirst(rows, slot) <==> x in rows && SlotOf(x) != slot
  {
    if rows != [] {
      forall x | x in rows[1..] ensures SlotOf(x) != SlotOf(rows[0]) {
        var j :| 0 <= j < |rows| - 1 && rows[1..][j] == x;
        assert rows[j + 1] == x;
      }
      DropFirstUnique(rows[1..], slot);
    }
  }

  lemma SlotDetermines(rows: seq<Row>, a: Row, b: Row)
    requires UniqueSlots(rows) && a in rows && b in rows && SlotOf(a) == SlotOf(b)
    ensures a == b
  {
  }

  lemma FindUnique(rows: seq<Row>, r: Row)
    requires UniqueSlots(rows) && r in rows
    ensures Find(rows, SlotOf(r)) == Some(r)
  {
    SlotDetermines(rows, r, Find(rows, SlotOf(r)).value);
  }

  /** What a step may make of the rows of a slot: keep them, or replace an expired one or an older revision. */
  ghost predicate Rises(before: seq<Row>, after: seq<Row>, now: int) {
    forall a, b :: a in before && b in after && SlotOf(a) == SlotOf(b)
                   ==> a == b || a.revision < b.revision || Expired(a, now)
  }

  lemma SubsetRises(before: seq<Row>, after: seq<Row>, now: int)
    requires UniqueSlots(before) && forall r :: r in after ==> r in before
    ensures Rises(before, after, now)
  {
    forall a, b | a in before && b in after && SlotOf(a) == SlotOf(b) ensures a == b {
      SlotDetermines(before, a, b);
    }
  }

  lemma InsertionRises(rows: seq<Row>, row: Row, now: int)
    requires UniqueSlots(rows) && !Superseded(Filter(rows, Live(now)), row)
    ensures Rises(rows, Inserted(Filter(rows, Live(now)), row), now) && UniqueSlots(Inserted(Filter(rows, Live(now)), row))
  {
    var live := Filter(rows, Live(now));
    FilterUnique(rows, Live(now), SlotOf);
    DropFirstUnique(live, SlotOf(row));
    forall a, b | a in rows && b in Inserted(live, row) && SlotOf(a) == SlotOf(b)
      ensures a == b || a.revision < b.revision || Expired(a, now)
    {
      if b != row {
        SlotDetermines(rows, a, b);
      } else if a in live {
        SlotDetermines(live, a, Find(live, SlotOf(row)).value);
      }
    }
    hide Rises;
    AppendUnique(DropFirst(live, SlotOf(row)), row, SlotOf);
  }

  /**
   * One step of the cache: slots stay unique, only live rows remain, every row is an old one
   * or the new one, and a live row's slot keeps that row or takes a strictly newer revision.
   */
  lemma RetainedStep(rows: seq<Row>, e: Envelope, raw: Text, now: int, activity: seq<Visit>)
    requires UniqueSlots(rows)
    ensures var after := Retained(rows, e, raw, now, activity);
            && UniqueSlots(after)
            && (forall r :: r in after ==> !Expired(r, now))
            && (forall r :: r in after ==> r in rows || (Inserts(rows, e, raw, now) && r == NewRow(e, raw, now)))
            && Rises(rows, after, now)
  {
    hide UniqueSlots, Superseded;
    var live := Filter(rows, Live(now));
    if Inserts(rows, e, raw, now) {
      var row := NewRow(e, raw, now);
      var candidates := Inserted(live, row);
      InsertionRises(rows, row, now);
      var order := EvictionOrder(candidates, activity, now);
      TrimIsShortestPrefix(candidates, order);
      hide EvictionOrder, NewRow;
      EvictedUnique(candidates, order);
    } else {
      LiveUnique(rows, now);
      SubsetRises(rows, live, now);
    }
  }

  lemma LiveUnique(rows: seq<Row>, now: int)
    requires UniqueSlots(rows)
    ensures UniqueSlots(Filter(rows, Live(now)))
  {
    FilterUnique(rows, Live(now), SlotOf);
  }

  lemma EvictedUnique(candidates: seq<Row>, order: seq<Rank>)
    requires UniqueSlots(candidates)
    ensures UniqueSlots(WithoutAll(candidates, order[..EvictedCount(candidates, order)]))
  {
    FilterUnique(candidates, OutsideGroups(order[..EvictedCount(candidates, order)]), SlotOf);
  }

  /**
   * What guards a slot: an admissible row enters if and only if every row stored in its slot has
   * expired or has a strictly lower revision. Whatever revision it had, an expired row is no guard.
   */
  lemma EntersIffUnguarded(rows: seq<Row>, e: Envelope, raw: Text, now: int)
    requires UniqueSlots(rows) && Admissible(e, raw, now)
    ensures var row := NewRow(e, raw, now);
            Inserts(rows, e, raw, now) <==>
            forall r :: r in rows && SlotOf(r) == SlotOf(row) ==> Expired(r, now) || r.revision < row.revision
  {
    var row, live := NewRow(e, raw, now), Filter(rows, Live(now));
    LiveUnique(rows, now);
    var existing := Find(live, SlotOf(row));
    if existing.Some? {
      forall r | r in live && SlotOf(r) == SlotOf(row) ensures r == existing.value {
        SlotDetermines(live, r, existing.value);
      }
      assert existing.value in rows;
    }
    assert forall r :: r in rows && !Expired(r, now) ==> r in live;
  }

  /** A replacing row is the only one its slot can hold afterwards. */
  lemma NewRowOwnsSlot(rows: seq<Row>, e: Envelope, raw: Text, now: int, activity: seq<Visit>, r: Row)
    requires UniqueSlots(rows) && Inserts(rows, e, raw, now)
    requires r in Retained(rows, e, raw, now, activity) && SlotOf(r) == SlotOf(NewRow(e, raw, now))
    ensures r == NewRow(e, raw, now)
  {
    var live := Filter(rows, Live(now));
    var candidates := Inserted(live, NewRow(e, raw, now));
    FilterUnique(rows, Live(now), SlotOf);
    DropFirstUnique(live, SlotOf(NewRow(e, raw, now)));
    TrimIsPrefix(candidates, EvictionOrder(candidates, activity, now));
  }
}
