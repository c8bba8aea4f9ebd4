/** The Durable Object adapter: rows split into 60,000-unit chunks under an index of slots. */
module RetainedWorker {
  import opened Lists
  import opened Text
  import opened Wire
  import opened RetainedPolicy
  import opened RetainedState

  const CHUNK_UNITS := 60000

  datatype Key = IndexKey | MetaKey(slot: Slot) | ChunkKey(slot: Slot, index: nat)

  /** Metadata is the row without its text, and the number of chunks the text was split into. */
  datatype Value = IndexValue(slots: seq<Slot>) | MetaValue(row: Row, chunks: nat) | ChunkValue(text: Text)

  function Look(storage: map<Key, Value>, k: Key): Option<Value> {
    if k in storage then Some(storage[k]) else None
  }

  function ChunkCount(raw: Text): nat { CeilDiv(|raw|, CHUNK_UNITS) }
  /** What a row's own key must hold. */
  function RowValue(r: Row, k: Key): Option<Value>
    requires !k.IndexKey?
  {
    if k.MetaKey? then Some(MetaValue(Metadata(r), ChunkCount(r.raw)))
    else if k.index < ChunkCount(r.raw) then Some(ChunkValue(Slice(r.raw, CHUNK_UNITS, k.index)))
    else None
  }

  /** What a metadata or chunk key must hold when `rows` are stored: nothing for a slot not held. */
  function Expected(rows: seq<Row>, k: Key): Option<Value>
    requires !k.IndexKey?
  {
    var held := Find(rows, k.slot);
    if held.None? then None else RowValue(held.value, k)
  }

  /** `storage` holds `rows` and nothing else: no missing chunk, no orphan chunk. */
  ghost predicate Represents(storage: map<Key, Value>, rows: seq<Row>) {
    && (if IndexKey in storage then storage[IndexKey] == IndexValue(Map(rows, SlotOf)) else rows == [])
    && forall k: Key :: !k.IndexKey? ==> Look(storage, k) == Expected(rows, k)
  }

  /** Some dropped row among the first `n` of `before` had this slot. */
  ghost predicate Removed(before: seq<Row>, rows: seq<Row>, n: nat, slot: Slot)
    requires n <= |before|
  {
    exists m :: 0 <= m < n && SlotOf(before[m]) == slot && before[m] !in rows
  }

  /** Storage after the removal loop has passed `n` rows of `before`. */
  ghost predicate Removing(now: map<Key, Value>, start: map<Key, Value>, before: seq<Row>, rows: seq<Row>, n: nat)
    requires n <= |before|
  {
    && Look(now, IndexKey) == Look(start, IndexKey)
    && forall k: Key :: !k.IndexKey? ==>
         Look(now, k) == if Removed(before, rows, n, k.slot) then None else Look(start, k)
  }

  /** Storage after the writing loop has passed `n` of the resulting rows. */
  ghost predicate Writing(now: map<Key, Value>, start: map<Key, Value>, before: seq<Row>, rows: seq<Row>, n: nat)
    requires n <= |rows|
  {
    && Look(now, IndexKey) == Look(start, IndexKey)
    && forall k: Key :: !k.IndexKey? ==>
         Look(now, k) == if Removed(rows, before, n, k.slot) then Expected(rows, k) else Look(start, k)
  }

  /** What `remove` does to storage: the metadata key and as many chunk keys as the byte size covers. */
  ghost predicate Erased(after: map<Key, Value>, start: map<Key, Value>, row: Row) {
    forall k: Key :: Look(after, k) ==
      if k == MetaKey(SlotOf(row)) || (k.ChunkKey? && k.slot == SlotOf(row) && k.index < CeilDiv(row.bytes, CHUNK_UNITS))
      then None else Look(start, k)
  }

  /** What writing a row does to storage. */
  ghost predicate Stored(after: map<Key, Value>, start: map<Key, Value>, row: Row) {
    forall k: Key :: Look(after, k) ==
      if k == MetaKey(SlotOf(row)) || (k.ChunkKey? && k.slot == SlotOf(row) && k.index < ChunkCount(row.raw))
      then RowValue(row, k) else Look(start, k)
  }

  /** Byte sizes cover every chunk, so nothing of a removed row survives. */
  lemma RemovingStep(after: map<Key, Value>, prior: map<Key, Value>, start: map<Key, Value>,
                     before: seq<Row>, rows: seq<Row>, n: nat)
    requires n < |before| && UniqueSlots(before) && TrueSizes(before) && Represents(start, before)
    requires Removing(prior, start, before, rows, n)
    requires if before[n] in rows then after == prior else Erased(after, prior, before[n])
    ensures Removing(after, start, before, rows, n + 1)
  {
  }

  lemma WritingStep(after: map<Key, Value>, prior: map<Key, Value>, cleared: map<Key, Value>, start: map<Key, Value>,
                    before: seq<Row>, rows: seq<Row>, n: nat)
    requires n < |rows| && UniqueSlots(before) && UniqueSlots(rows)
    requires Represents(start, before) && Removing(cleared, start, before, rows, |before|)
    requires Writing(prior, cleared, before, rows, n)
    requires if rows[n] in before then after == prior else Stored(after, prior, rows[n])
    ensures Writing(after, cleared, before, rows, n + 1)
  {
  }

  /** Both loops done, storage holds exactly the resulting rows. */
  lemma PutComplete(written: map<Key, Value>, cleared: map<Key, Value>, start: map<Key, Value>, before: seq<Row>, rows: seq<Row>)
    requires UniqueSlots(before) && UniqueSlots(rows) && Represents(start, before)
    requires Removing(cleared, start, before, rows, |before|) && Writing(written, cleared, before, rows, |rows|)
    ensures Represents(written[IndexKey := IndexValue(Map(rows, SlotOf))], rows)
  {
  }

  /**
   * The shape of the storage: nothing under the slot of no row; else the row without its text, and
   * the text in consecutive pieces of at most 60,000 units, as many as the metadata says.
   */
  lemma StorageShape(storage: map<Key, Value>, rows: seq<Row>, slot: Slot, index: nat)
    requires Represents(storage, rows)
    ensures MetaKey(slot) in storage <==> exists r :: r in rows && (r.recipient, r.key) == slot
    ensures ChunkKey(slot, index) in storage ==> MetaKey(slot) in storage
    ensures MetaKey(slot) in storage ==>
              && storage[MetaKey(slot)].MetaValue?
              && (ChunkKey(slot, index) in storage <==> index < storage[MetaKey(slot)].chunks)
              && exists r :: r in rows && (r.recipient, r.key) == slot && storage[MetaKey(slot)].row == r.(raw := [])
                   && (ChunkKey(slot, index) in storage <==> index * 60000 < |r.raw|)
                   && (ChunkKey(slot, index) in storage ==> storage[ChunkKey(slot, index)].ChunkValue?
                                                            && PieceOf(r.raw, index, storage[ChunkKey(slot, index)].text))
  {
    assert Look(storage, MetaKey(slot)) == Expected(rows, MetaKey(slot));
    assert Look(storage, ChunkKey(slot, index)) == Expected(rows, ChunkKey(slot, index));
    var held := Find(rows, slot);
    if held.Some? {
      ChunksCover(|held.value.raw|, index);
    } else {
      forall r | r in rows ensures (r.recipient, r.key) != slot {
        assert SlotOf(r) != slot;
      }
    }
  }

  predicate PieceOf(raw: Text, index: nat, piece: Text) {
    var from := index * 60000;
    && 0 < |piece| <= 60000 && from + |piece| <= |raw| && raw[from..from + |piece|] == piece
    && (from + |piece| < |raw| ==> |piece| == 60000)
  }

  lemma ChunksCover(n: nat, index: nat)
    ensures index < CeilDiv(n, CHUNK_UNITS) <==> index * CHUNK_UNITS < n
  {
  }

  class WorkerRetainedState {
    var storage: map<Key, Value>
    /** The rows this storage stands for. */
    ghost var held: seq<Row>

    ghost predicate Valid()
      reads this
    {
      UniqueSlots(held) && TrueSizes(held) && Represents(storage, held)
    }

    constructor ()
      ensures Valid() && held == []
    {
      storage, held := map[], [];
    }

    /** Reads one row back: its metadata, then its chunks in order, joined. */
    method ReadRow(slot: Slot) returns (row: Option<Row>)
      requires Valid()
      ensures row == Find(held, slot)
    {
      assert Look(storage, MetaKey(slot)) == Expected(held, MetaKey(slot));
      if MetaKey(slot) !in storage {
        return None;
      }
      var metadata := storage[MetaKey(slot)];
      ghost var stored := Find(held, slot).value;
      var chunks: seq<Text> := [];
      var complete := true;
      for i := 0 to metadata.chunks
        invariant complete && chunks == Slices(stored.raw, CHUNK_UNITS, i)
      {
        assert Look(storage, ChunkKey(slot, i)) == Expected(held, ChunkKey(slot, i));
        if ChunkKey(slot, i) in storage && storage[ChunkKey(slot, i)].ChunkValue? {
          chunks := chunks + [storage[ChunkKey(slot, i)].text];
        } else {
          complete := false;
        }
      }
      JoinSlices(stored.raw, CHUNK_UNITS);
      row := if complete then Some(metadata.row.(raw := Join(chunks))) else None;
    }

    /** `rows()`: reads back exactly the stored rows, texts included. */
    method Rows() returns (rows: seq<Row>)
      requires Valid()
      ensures rows == held
    {
      rows := [];
      var index := if IndexKey in storage then storage[IndexKey].slots else [];
      for n := 0 to |index|
        invariant rows == held[..n]
      {
        FindUnique(held, held[n]);
        var row := ReadRow(index[n]);
        if row.Some? {
          rows := rows + [row.value];
        }
      }
    }

    method Remove(row: Row)
      modifies this`storage
      ensures Erased(storage, old(storage), row)
    {
      var chunks := CeilDiv(row.bytes, CHUNK_UNITS);
      for i := 0 to chunks
        invariant forall k: Key :: Look(storage, k) ==
                    if k.ChunkKey? && k.slot == SlotOf(row) && k.index < i then None else old(Look(storage, k))
      {
        storage := storage - {ChunkKey(SlotOf(row), i)};
      }
      storage := storage - {MetaKey(SlotOf(row))};
    }

    method Write(row: Row)
      modifies this`storage
      ensures Stored(storage, old(storage), row)
    {
      var chunks := ChunkCount(row.raw);
      for i := 0 to chunks
        invariant forall k: Key :: Look(storage, k) ==
                    if k.ChunkKey? && k.slot == SlotOf(row) && k.index < i then RowValue(row, k) else old(Look(storage, k))
      {
        storage := storage[ChunkKey(SlotOf(row), i) := ChunkValue(Slice(row.raw, CHUNK_UNITS, i))];
      }
      storage := storage[MetaKey(SlotOf(row)) := MetaValue(Metadata(row), chunks)];
    }

    /** `put`: applies the policy's result as a difference, and so holds exactly that result. */
    method Put(e: Envelope, raw: Text, now: int, activity: seq<Visit>)
      requires Valid()
      modifies this
      ensures Valid() && held == Retained(old(held), e, raw, now, activity)
    {
      var before := Rows();
      var rows := RetainState(before, e, raw, now, activity);
      RetainedStep(before, e, raw, now, activity);
      ghost var start := storage;
      for n := 0 to |before|
        invariant Removing(storage, start, before, rows, n)
        invariant held == old(held)
      {
        ghost var prior := storage;
        if before[n] !in rows {
          Remove(before[n]);
        }
        RemovingStep(storage, prior, start, before, rows, n);
      }
      ghost var cleared := storage;
      for n := 0 to |rows|
        invariant Writing(storage, cleared, before, rows, n)
        invariant held == old(held)
      {
        ghost var prior := storage;
        if rows[n] !in before {
          Write(rows[n]);
        }
        WritingStep(storage, prior, cleared, start, before, rows, n);
      }
      PutComplete(storage, cleared, start, before, rows);
      storage := storage[IndexKey := IndexValue(Map(rows, SlotOf))];
      held := rows;
    }

    /** `list`. */
    method List(recipient: string, now: int) returns (rows: seq<Row>)
      requires Valid()
      ensures rows == Replay(held, recipient, now)
    {
      rows := Rows();
      rows := Replay(rows, recipient, now);
    }
  }

  /** Over a whole run of replacements the stored room is the policy's, text for text. */
  method PutAll(room: WorkerRetainedState, run: seq<Replacement>)
    requires room.Valid() && room.held == []
    modifies room
    ensures room.Valid() && room.held == Caches(run)[|run|]
  {
    for n := 0 to |run|
      invariant room.Valid() && room.held == Caches(run)[n]
    {
      assert StepsAt(Caches(run), run, n);
      room.Put(run[n].e, run[n].raw, run[n].now, run[n].activity);
    }
  }
}
