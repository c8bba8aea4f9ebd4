/**
 * The SQLite adapter: one table row per slot. The policy sees metadata only, in whatever order
 * the database returns it, and its result is applied as deletes and inserts.
 */
module RetainedNode {
  import opened Lists
  import opened Text
  import opened Wire
  import opened RetainedPolicy
  import opened RetainedState

  // ---- the policy never looks at stored texts ----

  ghost predicate SameButText(a: seq<Row>, b: seq<Row>) {
    |a| == |b| && forall i :: 0 <= i < |a| ==> Metadata(a[i]) == Metadata(b[i])
  }

  ghost predicate IgnoresText(p: Row -> bool) {
    forall x, y :: Metadata(x) == Metadata(y) ==> p(x) == p(y)
  }

  lemma {:induction false} FilterSame(a: seq<Row>, b: seq<Row>, p: Row -> bool)
    requires SameButText(a, b) && IgnoresText(p)
    ensures SameButText(Filter(a, p), Filter(b, p))
  {
    if a != [] {
      FilterSame(a[1..], b[1..], p);
      assert Metadata(a[0]) == Metadata(b[0]);
    }
  }

  lemma {:induction false} SumSame(a: seq<Row>, b: seq<Row>)
    requires SameButText(a, b)
    ensures Sum(a, SizeOf) == Sum(b, SizeOf)
  {
    if a != [] {
      SumSame(a[1..], b[1..]);
      assert Metadata(a[0]) == Metadata(b[0]);
    }
  }

  lemma {:induction false} FindSame(a: seq<Row>, b: seq<Row>, slot: Slot)
    requires SameButText(a, b)
    ensures Find(a, slot).Some? == Find(b, slot).Some?
    ensures Find(a, slot).Some? ==> Metadata(Find(a, slot).value) == Metadata(Find(b, slot).value)
    ensures SameButText(DropFirst(a, slot), DropFirst(b, slot))
  {
    if a != [] {
      FindSame(a[1..], b[1..], slot);
      assert Metadata(a[0]) == Metadata(b[0]);
    }
  }

  lemma {:induction false} IdsSame(a: seq<Row>, b: seq<Row>)
    requires SameButText(a, b)
    ensures Ids(a) == Ids(b)
  {
    if a != [] {
      var n := |a| - 1;
      IdsSame(a[..n], b[..n]);
      assert Metadata(a[n]) == Metadata(b[n]);
    }
  }

  lemma {:induction false} MaximaSame(a: seq<Row>, b: seq<Row>)
    requires SameButText(a, b) && a != []
    ensures MaxPriority(a) == MaxPriority(b) && MaxSavedAt(a) == MaxSavedAt(b)
  {
    var n := |a| - 1;
    assert Metadata(a[n]) == Metadata(b[n]);
    if n > 0 {
      MaximaSame(a[..n], b[..n]);
    }
  }

  lemma RankSame(a: seq<Row>, b: seq<Row>, id: string, activity: seq<Visit>, now: int)
    requires SameButText(a, b) && id in Ids(a) && id in Ids(b)
    ensures RankOf(a, id, activity, now) == RankOf(b, id, activity, now)
  {
    FilterSame(a, b, InGroup(id));
    var m, m' := Members(a, id), Members(b, id);
    var x :| x in a && GroupId(x) == id;
    assert x in m;
    FilterSame(m, m', IsBody());
    var bodies, bodies' := Filter(m, IsBody()), Filter(m', IsBody());
    MaximaSame(m, m');
    if bodies != [] {
      MaximaSame(bodies, bodies');
    }
    assert Metadata(m[0]) == Metadata(m'[0]) && Metadata(m[|m| - 1]) == Metadata(m'[|m| - 1]);
  }

  lemma OrderSame(a: seq<Row>, b: seq<Row>, activity: seq<Visit>, now: int)
    requires SameButText(a, b)
    ensures EvictionOrder(a, activity, now) == EvictionOrder(b, activity, now)
  {
    IdsSame(a, b);
    forall i | 0 <= i < |Ids(a)|
      ensures RankOf(a, Ids(a)[i], activity, now) == RankOf(b, Ids(b)[i], activity, now)
    {
      RankSame(a, b, Ids(a)[i], activity, now);
    }
    assert Ranks(a, activity, now) == Ranks(b, activity, now);
  }

  lemma {:induction false} TrimSame(a: seq<Row>, b: seq<Row>, order: seq<Rank>)
    requires SameButText(a, b)
    ensures SameButText(Trim(a, order), Trim(b, order))
    decreases order
  {
    SumSame(a, b);
    if order != [] && !Fits(a) {
      FilterSame(a, b, OutsideGroup(order[0].id));
      TrimSame(Without(a, order[0].id), Without(b, order[0].id), order[1..]);
    }
  }

  /** Running the policy on metadata keeps the same rows as running it on the full rows. */
  lemma PolicyIgnoresText(a: seq<Row>, b: seq<Row>, e: Envelope, raw: Text, now: int, activity: seq<Visit>)
    requires SameButText(a, b)
    ensures Inserts(a, e, raw, now) == Inserts(b, e, raw, now)
    ensures SameButText(Retained(a, e, raw, now, activity), Retained(b, e, raw, now, activity))
  {
    FilterSame(a, b, Live(now));
    var live, live' := Filter(a, Live(now)), Filter(b, Live(now));
    if Admissible(e, raw, now) {
      var row := NewRow(e, raw, now);
      FindSame(live, live', SlotOf(row));
      if Inserts(a, e, raw, now) {
        var c, c' := Inserted(live, row), Inserted(live', row);
        OrderSame(c, c', activity, now);
        TrimSame(c, c', EvictionOrder(c, activity, now));
      }
    }
  }

  // ---- the table ----

  function Look(table: map<Slot, Row>, slot: Slot): Option<Row> {
    if slot in table then Some(table[slot]) else None
  }

  /** The table holds exactly `rows`. */
  ghost predicate Holds(table: map<Slot, Row>, rows: seq<Row>) {
    forall slot :: Look(table, slot) == Find(rows, slot)
  }

  /** A complete scan of the table: every slot once, in any order. */
  ghost predicate Scan(table: map<Slot, Row>, order: seq<Slot>) {
    Distinct(order) && forall slot :: slot in order <==> slot in table
  }

  function Scanned(table: map<Slot, Row>, order: seq<Slot>): (rows: seq<Row>)
    requires forall slot :: slot in order ==> slot in table
    ensures |rows| == |order| && forall i :: 0 <= i < |order| ==> rows[i] == table[order[i]]
  {
    seq(|order|, i requires 0 <= i < |order| => table[order[i]])
  }

  function MetadataOf(rows: seq<Row>): (m: seq<Row>)
    ensures |m| == |rows| && forall i :: 0 <= i < |rows| ==> m[i] == Metadata(rows[i])
  {
    seq(|rows|, i requires 0 <= i < |rows| => Metadata(rows[i]))
  }

  /** One of the first `n` rows has this slot and is missing from `other`. */
  ghost predicate Missing(rows: seq<Row>, other: seq<Row>, n: nat, slot: Slot)
    requires n <= |rows|
  {
    exists m :: 0 <= m < n && SlotOf(rows[m]) == slot && rows[m] !in other
  }

  lemma MissingStep(rows: seq<Row>, other: seq<Row>, n: nat)
    requires n < |rows|
    ensures forall slot :: Missing(rows, other, n + 1, slot) <==>
              Missing(rows, other, n, slot) || (SlotOf(rows[n]) == slot && rows[n] !in other)
  {
    forall slot
      ensures Missing(rows, other, n + 1, slot) <==>
                Missing(rows, other, n, slot) || (SlotOf(rows[n]) == slot && rows[n] !in other)
    {
      if Missing(rows, other, n, slot) {
        var m :| 0 <= m < n && SlotOf(rows[m]) == slot && rows[m] !in other;
      }
    }
  }

  /** Deleting what the policy dropped and inserting what it added leaves exactly its full result. */
  lemma DifferenceApplied(table: map<Slot, Row>, start: map<Slot, Row>, full: seq<Row>, before: seq<Row>,
                          rows: seq<Row>, e: Envelope, raw: Text, now: int, activity: seq<Visit>)
    requires UniqueSlots(full) && before == MetadataOf(full) && Holds(start, full)
    requires rows == Retained(before, e, raw, now, activity)
    requires forall slot :: Look(table, slot) ==
               if Missing(rows, before, |rows|, slot) then Find(rows, slot)
               else if Missing(before, rows, |before|, slot) then None
               else Look(start, slot)
    ensures Holds(table, Retained(full, e, raw, now, activity))
  {
    hide Missing, Retained, Find, Look, UniqueSlots, Inserts, NewRow;
    forall slot ensures Look(table, slot) == Find(Retained(full, e, raw, now, activity), slot) {
      DifferenceAt(full, before, rows, slot, e, raw, now, activity);
    }
  }

  /** The same for one slot. */
  lemma DifferenceAt(full: seq<Row>, before: seq<Row>, rows: seq<Row>, slot: Slot,
                     e: Envelope, raw: Text, now: int, activity: seq<Visit>)
    requires UniqueSlots(full) && before == MetadataOf(full) && rows == Retained(before, e, raw, now, activity)
    ensures Find(Retained(full, e, raw, now, activity), slot) ==
            if Missing(rows, before, |rows|, slot) then Find(rows, slot)
            else if Missing(before, rows, |before|, slot) then None
            else Find(full, slot)
  {
    var result := Retained(full, e, raw, now, activity);
    PolicyIgnoresText(full, before, e, raw, now, activity);
    RetainedStep(full, e, raw, now, activity);
    RetainedStep(before, e, raw, now, activity);
    FindSame(result, rows, slot);
    FindSame(full, before, slot);
    hide Retained, Inserts, NewRow, Missing;
    if Find(rows, slot).None? {
      DroppedSlot(before, rows, slot);
    } else if Find(rows, slot).value in before {
      KeptRow(full, before, rows, result, slot, e, raw, now, activity);
    } else {
      AddedSlot(before, rows, slot);
      NewRowOwnsSlot(full, e, raw, now, activity, Find(result, slot).value);
    }
  }

  lemma DroppedSlot(before: seq<Row>, rows: seq<Row>, slot: Slot)
    requires Find(rows, slot).None?
    ensures !Missing(rows, before, |rows|, slot)
    ensures Find(before, slot).Some? ==> Missing(before, rows, |before|, slot)
  {
  }

  lemma AddedSlot(before: seq<Row>, rows: seq<Row>, slot: Slot)
    requires Find(rows, slot).Some? && Find(rows, slot).value !in before
    ensures Missing(rows, before, |rows|, slot)
  {
  }

  /** A row kept from before is neither deleted nor rewritten, so its stored text is the full row's. */
  lemma KeptRow(full: seq<Row>, before: seq<Row>, rows: seq<Row>, result: seq<Row>, slot: Slot,
                e: Envelope, raw: Text, now: int, activity: seq<Visit>)
    requires UniqueSlots(full) && before == MetadataOf(full)
    requires UniqueSlots(before) && UniqueSlots(rows) && UniqueSlots(result)
    requires rows == Retained(before, e, raw, now, activity) && result == Retained(full, e, raw, now, activity)
    requires SameButText(result, rows) && Inserts(full, e, raw, now) == Inserts(before, e, raw, now)
    requires forall r :: r in result ==> r in full || (Inserts(full, e, raw, now) && r == NewRow(e, raw, now))
    requires Find(rows, slot).Some? && Find(rows, slot).value in before && Find(result, slot).Some?
    ensures !Missing(rows, before, |rows|, slot) && !Missing(before, rows, |before|, slot)
    ensures Find(result, slot) == Find(full, slot)
  {
    var kept, want := Find(rows, slot).value, Find(result, slot).value;
    forall m | 0 <= m < |rows| && SlotOf(rows[m]) == slot ensures rows[m] in before {
      SlotDetermines(rows, rows[m], kept);
    }
    forall m | 0 <= m < |before| && SlotOf(before[m]) == slot ensures before[m] in rows {
      SlotDetermines(before, before[m], kept);
    }
    FindSame(full, before, slot);
    if Inserts(before, e, raw, now) {
      OldRowSlot(before, e, raw, now, activity, kept);
    }
    FindUnique(full, want);
  }

  /** A row that was there before does not sit in the replaced slot. */
  lemma OldRowSlot(before: seq<Row>, e: Envelope, raw: Text, now: int, activity: seq<Visit>, kept: Row)
    requires UniqueSlots(before) && Inserts(before, e, raw, now)
    requires kept in before && kept in Retained(before, e, raw, now, activity)
    ensures SlotOf(kept) != SlotOf(NewRow(e, raw, now))
  {
    var live, row := Filter(before, Live(now)), NewRow(e, raw, now);
    FilterUnique(before, Live(now), SlotOf);
    DropFirstUnique(live, SlotOf(row));
    TrimIsPrefix(Inserted(live, row), EvictionOrder(Inserted(live, row), activity, now));
    if kept == row {
      SlotDetermines(live, kept, Find(live, SlotOf(row)).value);
    }
  }

  // ---- the order of a scan does not matter to what a table holds ----

  lemma SumWithout(rows: seq<Row>, i: nat)
    requires i < |rows|
    ensures Sum(rows, SizeOf) == SizeOf(rows[i]) + Sum(rows[..i] + rows[i + 1..], SizeOf)
  {
    SumConcat(rows[..i], rows[i + 1..], SizeOf);
    SumConcat(rows[..i], [rows[i]] + rows[i + 1..], SizeOf);
    assert rows == rows[..i] + ([rows[i]] + rows[i + 1..]);
    assert ([rows[i]] + rows[i + 1..])[1..] == rows[i + 1..];
  }

  lemma UniqueWithout(rows: seq<Row>, i: nat)
    requires UniqueSlots(rows) && i < |rows|
    ensures UniqueSlots(rows[..i] + rows[i + 1..])
    ensures forall r :: r in rows[..i] + rows[i + 1..] <==> r in rows && r != rows[i]
  {
  }

  lemma NonemptyHasRow(rows: seq<Row>)
    ensures rows == [] || exists r :: r in rows
  {
    if rows != [] {
      assert rows[0] in rows;
    }
  }

  lemma {:induction false} SameRowsSameSize(a: seq<Row>, b: seq<Row>)
    requires UniqueSlots(a) && UniqueSlots(b) && forall r :: r in a <==> r in b
    ensures |a| == |b| && Sum(a, SizeOf) == Sum(b, SizeOf)
  {
    hide UniqueSlots;
    if a == [] {
      NonemptyHasRow(b);
    } else {
      assert a[0] in a;
      var j :| 0 <= j < |b| && b[j] == a[0];
      var less := b[..j] + b[j + 1..];
      UniqueWithout(a, 0);
      UniqueWithout(b, j);
      assert a[..0] + a[1..] == a[1..];
      forall r ensures r in a[1..] <==> r in less {
        assert r in a[1..] <==> r in a && r != a[0];
        assert r in less <==> r in b && r != b[j];
      }
      SameRowsSameSize(a[1..], less);
      SumWithout(b, j);
    }
  }

  lemma TableDeterminesRows(table: map<Slot, Row>, a: seq<Row>, b: seq<Row>)
    requires UniqueSlots(a) && UniqueSlots(b) && Holds(table, a) && Holds(table, b)
    ensures forall r :: r in a <==> r in b
    ensures Fits(a) == Fits(b) && TrueSizes(a) == TrueSizes(b)
  {
    forall r ensures r in a <==> r in b {
      assert Look(table, SlotOf(r)) == Find(a, SlotOf(r)) == Find(b, SlotOf(r));
      if r in a {
        FindUnique(a, r);
      }
      if r in b {
        FindUnique(b, r);
      }
    }
    SameRowsSameSize(a, b);
  }

  lemma RetainedTrueSizes(rows: seq<Row>, e: Envelope, raw: Text, now: int, activity: seq<Visit>)
    requires UniqueSlots(rows) && TrueSizes(rows)
    ensures TrueSizes(Retained(rows, e, raw, now, activity))
  {
    RetainedStep(rows, e, raw, now, activity);
  }

  function Purged(table: map<Slot, Row>, now: int): map<Slot, Row> {
    map slot | slot in table && !Expired(table[slot], now) :: table[slot]
  }

  class NodeRetainedState {
    var table: map<Slot, Row>
    /** The rows of the table, in the order the last `put` left them. */
    ghost var held: seq<Row>

    ghost predicate Valid()
      reads this
    {
      && (forall slot :: slot in table ==> SlotOf(table[slot]) == slot)
      && UniqueSlots(held) && Holds(table, held) && Fits(held) && TrueSizes(held)
    }

    constructor ()
      ensures Valid() && table == map[] && held == []
    {
      table, held := map[], [];
    }

    /**
     * `put`, the metadata arriving in `order`: afterwards the table holds, with their texts, exactly
     * the rows the policy keeps of the full rows in that order, within both bounds; a slot that
     * stays held by an unexpired row keeps it or takes a strictly newer revision.
     */
    method Put(order: seq<Slot>, e: Envelope, raw: Text, now: int, activity: seq<Visit>)
      requires Valid() && Scan(table, order)
      modifies this
      ensures Valid()
      ensures held == Retained(old(Scanned(table, order)), e, raw, now, activity)
      ensures Rises(old(held), held, now)
    {
      hide Retained, Fits, TrueSizes, UniqueSlots;
      ScanHolds(table, held, order);
      ghost var full := Scanned(table, order);
      ghost var start := table;
      var before := MetadataOf(Scanned(table, order));
      var rows := RetainState(before, e, raw, now, activity);
      MetadataUnique(full, before);
      RetainedStep(before, e, raw, now, activity);
      DeleteDropped(before, rows);
      InsertAdded(before, rows);
      DifferenceApplied(table, start, full, before, rows, e, raw, now, activity);
      StepKeepsTable(start, held, full, e, raw, now, activity);
      held := Retained(full, e, raw, now, activity);
      forall slot | slot in table ensures SlotOf(table[slot]) == slot {
        assert Look(table, slot) == Find(held, slot);
      }
    }

    /** `purge`, as the minute timer runs it: exactly the expired rows go. */
    method Purge(now: int)
      requires Valid()
      modifies this
      ensures Valid()
      ensures table == Purged(old(table), now)
      ensures forall slot :: slot in table <==> slot in old(table) && now < old(table)[slot].expiresAt
      ensures forall slot :: slot in table ==> table[slot] == old(table)[slot]
    {
      PurgeKeepsTable(table, held, now);
      table := Purged(table, now);
      held := Filter(held, Live(now));
    }

    /** Some order in which the database may return the rows. */
    method ScanOrder() returns (order: seq<Slot>)
      ensures Scan(table, order)
    {
      order := [];
      var todo := table.Keys;
      while todo != {}
        invariant Distinct(order) && (forall slot :: slot in order ==> slot !in todo)
        invariant forall slot :: slot in table <==> slot in todo || slot in order
        decreases todo
      {
        var slot :| slot in todo;
        order := order + [slot];
        todo := todo - {slot};
      }
    }

    /** `list`: the SQL order leaves rows of equal priority and revision in scan order. */
    method List(order: seq<Slot>, recipient: string, now: int) returns (rows: seq<Row>)
      requires Valid() && Scan(table, order)
      ensures rows == Replay(Scanned(table, order), recipient, now)
    {
      if !ValidDigest(recipient) {
        return [];
      }
      rows := Sort(Filter(Scanned(table, order), ForRecipient(recipient, now)), ReplayLe);
    }

    method DeleteDropped(before: seq<Row>, rows: seq<Row>)
      modifies this`table
      ensures forall slot :: Look(table, slot) ==
                if Missing(before, rows, |before|, slot) then None else Look(old(table), slot)
    {
      for n := 0 to |before|
        invariant forall slot :: Look(table, slot) ==
                    if Missing(before, rows, n, slot) then None else Look(old(table), slot)
      {
        if before[n] !in rows {
          table := table - {SlotOf(before[n])};
        }
        MissingStep(before, rows, n);
      }
    }

    method InsertAdded(before: seq<Row>, rows: seq<Row>)
      requires UniqueSlots(rows)
      modifies this`table
      ensures forall slot :: Look(table, slot) ==
                if Missing(rows, before, |rows|, slot) then Find(rows, slot) else Look(old(table), slot)
    {
      for n := 0 to |rows|
        invariant forall slot :: Look(table, slot) ==
                    if Missing(rows, before, n, slot) then Find(rows, slot) else Look(old(table), slot)
      {
        FindUnique(rows, rows[n]);
        if rows[n] !in before {
          table := table[SlotOf(rows[n]) := rows[n]];
        }
        MissingStep(rows, before, n);
      }
    }
  }

  lemma MetadataUnique(full: seq<Row>, before: seq<Row>)
    requires UniqueSlots(full) && before == MetadataOf(full)
    ensures UniqueSlots(before)
  {
  }

  /** Whatever order the rows were read in, the policy keeps the bounds, the sizes and the revisions. */
  lemma StepKeepsTable(start: map<Slot, Row>, held: seq<Row>, full: seq<Row>, e: Envelope, raw: Text, now: int,
                       activity: seq<Visit>)
    requires UniqueSlots(held) && Holds(start, held) && Fits(held) && TrueSizes(held)
    requires UniqueSlots(full) && Holds(start, full)
    ensures var after := Retained(full, e, raw, now, activity);
            UniqueSlots(after) && Fits(after) && TrueSizes(after) && Rises(held, after, now)
  {
    hide Retained, Fits, TrueSizes, UniqueSlots;
    TableDeterminesRows(start, held, full);
    RetainedStep(full, e, raw, now, activity);
    RetainedWithinBounds(full, e, raw, now, activity);
    RetainedTrueSizes(full, e, raw, now, activity);
  }

  lemma PurgeKeepsTable(table: map<Slot, Row>, held: seq<Row>, now: int)
    requires UniqueSlots(held) && Holds(table, held) && Fits(held) && TrueSizes(held)
    ensures var left := Filter(held, Live(now));
            UniqueSlots(left) && Holds(Purged(table, now), left) && Fits(left) && TrueSizes(left)
  {
    LiveUnique(held, now);
    FilterAll(held, (r: Row) => true);
    SumMonotone(held, Live(now), (r: Row) => true, SizeOf);
    var left := Filter(held, Live(now));
    hide UniqueSlots, Fits;
    forall slot ensures Look(Purged(table, now), slot) == Find(left, slot) {
      assert Look(table, slot) == Find(held, slot);
      if Find(left, slot).Some? {
        FindUnique(held, Find(left, slot).value);
      } else if Find(held, slot).Some? {
        assert Find(held, slot).value !in left;
      }
    }
  }

  // ---- whole runs of puts, each with its own scan order, and purges ----

  datatype Event = PutAt(e: Envelope, raw: Text, now: int, activity: seq<Visit>) | PurgeAt(now: int)

  /** What one event may make of the table. */
  ghost predicate Step(before: map<Slot, Row>, after: map<Slot, Row>, event: Event) {
    match event
    case PutAt(e, raw, now, activity) =>
      exists order :: Scan(before, order) && Holds(after, Retained(Scanned(before, order), e, raw, now, activity))
    case PurgeAt(now) => after == Purged(before, now)
  }

  ghost predicate StepsAt(tables: seq<map<Slot, Row>>, run: seq<Event>, k: nat)
    requires k < |run| && |tables| == |run| + 1
  {
    Step(tables[k], tables[k + 1], run[k])
  }

  /** The tables a run may pass through, whatever order each scan takes. */
  ghost predicate History(tables: seq<map<Slot, Row>>, run: seq<Event>) {
    && |tables| == |run| + 1 && tables[0] == map[]
    && forall k :: 0 <= k < |run| ==> StepsAt(tables, run, k)
  }

  /** The table holds some rows with unique slots and true sizes within both bounds. */
  ghost predicate Bounded(table: map<Slot, Row>) {
    exists rows :: UniqueSlots(rows) && Holds(table, rows) && Fits(rows) && TrueSizes(rows)
  }

  /** A slot that is held before and after keeps its row, takes a newer revision, or had expired. */
  ghost predicate TableRises(before: map<Slot, Row>, after: map<Slot, Row>, now: int) {
    forall slot :: slot in before && slot in after ==>
      before[slot] == after[slot] || before[slot].revision < after[slot].revision || Expired(before[slot], now)
  }

  lemma ScanHolds(table: map<Slot, Row>, held: seq<Row>, order: seq<Slot>)
    requires Holds(table, held) && Scan(table, order)
    ensures UniqueSlots(Scanned(table, order)) && Holds(table, Scanned(table, order))
  {
    var rows := Scanned(table, order);
    forall slot | slot in table ensures SlotOf(table[slot]) == slot {
      assert Look(table, slot) == Find(held, slot);
    }
    forall slot ensures Look(table, slot) == Find(rows, slot) {
      if slot in table {
        var i :| 0 <= i < |order| && order[i] == slot;
        FindUnique(rows, rows[i]);
      }
    }
  }

  lemma RowsRise(before: map<Slot, Row>, held: seq<Row>, after: map<Slot, Row>, left: seq<Row>, now: int)
    requires Holds(before, held) && Holds(after, left) && Rises(held, left, now)
    ensures TableRises(before, after, now)
  {
    forall slot | slot in before && slot in after
      ensures before[slot] == after[slot] || before[slot].revision < after[slot].revision || Expired(before[slot], now)
    {
      assert Look(before, slot) == Find(held, slot) && Look(after, slot) == Find(left, slot);
    }
  }

  lemma StepBounded(before: map<Slot, Row>, after: map<Slot, Row>, event: Event)
    requires Bounded(before) && Step(before, after, event)
    ensures Bounded(after) && TableRises(before, after, event.now)
  {
    hide UniqueSlots, Fits, TrueSizes, Holds, Retained, Rises;
    var held :| UniqueSlots(held) && Holds(before, held) && Fits(held) && TrueSizes(held);
    match event
    case PutAt(e, raw, now, activity) =>
      var order :| Scan(before, order) && Holds(after, Retained(Scanned(before, order), e, raw, now, activity));
      ScanHolds(before, held, order);
      StepKeepsTable(before, held, Scanned(before, order), e, raw, now, activity);
      RowsRise(before, held, after, Retained(Scanned(before, order), e, raw, now, activity), now);
    case PurgeAt(now) =>
      PurgeKeepsTable(before, held, now);
  }

  /** In every table of every run slots are unique, both bounds hold and sizes are the true sizes. */
  lemma {:induction false} ReachableTable(tables: seq<map<Slot, Row>>, run: seq<Event>, k: nat)
    requires History(tables, run) && k <= |run|
    ensures Bounded(tables[k])
  {
    hide Step, Bounded;
    if k > 0 {
      ReachableTable(tables, run, k - 1);
      assert StepsAt(tables, run, k - 1);
      StepBounded(tables[k - 1], tables[k], run[k - 1]);
    } else {
      EmptyBounded();
    }
  }

  lemma EmptyBounded()
    ensures Bounded(map[])
  {
    assert UniqueSlots([]) && Holds(map[], []);
  }

  /** From table `i` to table `j` the slot stays held, each time by a row unexpired at the next event. */
  ghost predicate HeldFrom(tables: seq<map<Slot, Row>>, run: seq<Event>, i: nat, j: nat, slot: Slot)
    requires i <= j <= |run| && |tables| == |run| + 1
  {
    && (forall m :: i <= m <= j ==> slot in tables[m])
    && (forall m :: i <= m < j ==> !Expired(tables[m][slot], run[m].now))
  }

  /** Over any stretch of any run, a slot held by unexpired rows changes only to strictly newer revisions. */
  lemma {:induction false} TableRevisionsRise(tables: seq<map<Slot, Row>>, run: seq<Event>, i: nat, j: nat, slot: Slot)
    requires History(tables, run) && i <= j <= |run| && HeldFrom(tables, run, i, j, slot)
    ensures tables[j][slot] == tables[i][slot] || tables[i][slot].revision < tables[j][slot].revision
  {
    hide Step, Bounded;
    if i < j {
      TableRevisionsRise(tables, run, i, j - 1, slot);
      ReachableTable(tables, run, j - 1);
      assert StepsAt(tables, run, j - 1);
      StepBounded(tables[j - 1], tables[j], run[j - 1]);
    }
  }

  /** Any run carried out on the store is such a history. */
  method RunAll(store: NodeRetainedState, run: seq<Event>) returns (ghost tables: seq<map<Slot, Row>>)
    requires store.Valid() && store.table == map[]
    modifies store
    ensures store.Valid() && History(tables, run) && tables[|run|] == store.table
  {
    hide Retained, Fits, TrueSizes, UniqueSlots, Step;
    tables := [map[]];
    for n := 0 to |run|
      invariant store.Valid() && |tables| == n + 1 && tables[0] == map[] && tables[n] == store.table
      invariant forall k :: 0 <= k < n ==> Step(tables[k], tables[k + 1], run[k])
    {
      ghost var before := store.table;
      match run[n] {
        case PutAt(e, raw, now, activity) =>
          var order := store.ScanOrder();
          store.Put(order, e, raw, now, activity);
          PutIsStep(before, store.table, order, run[n]);
        case PurgeAt(now) =>
          store.Purge(now);
          PurgeIsStep(before, run[n]);
      }
      tables := tables + [store.table];
    }
    assert forall k :: 0 <= k < |run| ==> StepsAt(tables, run, k);
  }

  lemma PutIsStep(before: map<Slot, Row>, after: map<Slot, Row>, order: seq<Slot>, event: Event)
    requires event.PutAt? && Scan(before, order)
    requires Holds(after, Retained(Scanned(before, order), event.e, event.raw, event.now, event.activity))
    ensures Step(before, after, event)
  {
  }

  lemma PurgeIsStep(before: map<Slot, Row>, event: Event)
    requires event.PurgeAt?
    ensures Step(before, Purged(before, event.now), event)
  {
  }
}
