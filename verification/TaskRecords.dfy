/** Reading all job records through storage pages of at most 1,000 keys. */
module TaskRecords {
  import opened Lists
  import opened TaskPolicy

  const PAGE := 1000
  const RECORD_LIMIT := ROOM_RECEIPT_LIMIT + ROOM_JOB_LIMIT

  /** The order in which storage lists its keys. */
  predicate Less(a: string, b: string) {
    b != [] && (a == [] || a[0] < b[0] || (a[0] == b[0] && Less(a[1..], b[1..])))
  }

  predicate Ascending(keys: seq<string>) {
    forall i, j :: 0 <= i < j < |keys| ==> Less(keys[i], keys[j])
  }

  lemma {:induction false} LessAsymmetric(a: string, b: string)
    requires Less(a, b)
    ensures a != b && !Less(b, a)
  {
    if a != [] && a[0] == b[0] {
      LessAsymmetric(a[1..], b[1..]);
    }
  }

  lemma {:induction false} LessIrreflexive(a: string)
    ensures !Less(a, a)
  {
    if a != [] {
      LessIrreflexive(a[1..]);
    }
  }

  lemma {:induction false} LessTransitive(a: string, b: string, c: string)
    requires Less(a, b) && Less(b, c)
    ensures Less(a, c)
  {
    if a != [] && a[0] == b[0] == c[0] {
      LessTransitive(a[1..], b[1..], c[1..]);
    }
  }

  lemma {:induction false} LessTotal(a: string, b: string)
    ensures a == b || Less(a, b) || Less(b, a)
  {
    if a != [] && b != [] && a[0] == b[0] {
      LessTotal(a[1..], b[1..]);
      assert a == [a[0]] + a[1..] && b == [b[0]] + b[1..];
    }
  }

  predicate After(cursor: Option<string>, key: string) { cursor.None? || Less(cursor.value, key) }

  function Beyond(cursor: Option<string>): string -> bool { (key: string) => After(cursor, key) }

  /** `storage.list({ startAfter, limit })`: the next keys in order. */
  function ListPage(keys: seq<string>, cursor: Option<string>, limit: nat): seq<string> {
    var rest := Filter(keys, Beyond(cursor));
    if |rest| <= limit then rest else rest[..limit]
  }

  function Cursor(keys: seq<string>, n: nat): Option<string>
    requires n <= |keys|
  {
    if n == 0 then None else Some(keys[n - 1])
  }

  lemma ReadKeysNotBeyond(keys: seq<string>, n: nat, i: nat)
    requires Ascending(keys) && i < n <= |keys|
    ensures !After(Cursor(keys, n), keys[i])
  {
    if i < n - 1 {
      LessAsymmetric(keys[i], keys[n - 1]);
    } else {
      LessIrreflexive(keys[i]);
    }
  }

  lemma LaterKeysBeyond(keys: seq<string>, n: nat, i: nat)
    requires Ascending(keys) && n <= i < |keys|
    ensures After(Cursor(keys, n), keys[i])
  {
  }

  lemma ReadKeysGone(keys: seq<string>, n: nat)
    requires Ascending(keys) && n <= |keys|
    ensures Filter(keys[..n], Beyond(Cursor(keys, n))) == []
  {
    hide Less, After, Ascending;
    forall key | key in keys[..n] ensures !Beyond(Cursor(keys, n))(key) {
      var i :| 0 <= i < n && keys[i] == key;
      ReadKeysNotBeyond(keys, n, i);
    }
    FilterNone(keys[..n], Beyond(Cursor(keys, n)));
  }

  lemma LaterKeysStay(keys: seq<string>, n: nat)
    requires Ascending(keys) && n <= |keys|
    ensures Filter(keys[n..], Beyond(Cursor(keys, n))) == keys[n..]
  {
    hide Less, After, Ascending;
    forall key | key in keys[n..] ensures Beyond(Cursor(keys, n))(key) {
      var i :| n <= i < |keys| && keys[i] == key;
      LaterKeysBeyond(keys, n, i);
    }
    FilterAll(keys[n..], Beyond(Cursor(keys, n)));
  }

  /** After the first `n` keys have been read, the rest lies beyond the last of them. */
  lemma RestBeyondCursor(keys: seq<string>, n: nat)
    requires Ascending(keys) && n <= |keys|
    ensures Filter(keys, Beyond(Cursor(keys, n))) == keys[n..]
  {
    hide Less, After, Ascending, Filter, Beyond;
    ReadKeysGone(keys, n);
    LaterKeysStay(keys, n);
    FilterConcat(keys[..n], keys[n..], Beyond(Cursor(keys, n)));
    assert keys == keys[..n] + keys[n..];
  }

  /** A page is the next stretch of keys, cut at the page size. */
  lemma PageIsNextStretch(keys: seq<string>, n: nat)
    requires Ascending(keys) && n <= |keys|
    ensures ListPage(keys, Cursor(keys, n), PAGE) == keys[n..if n + PAGE <= |keys| then n + PAGE else |keys|]
  {
    hide Less, Ascending;
    RestBeyondCursor(keys, n);
  }

  /**
   * `listTaskJobRecords`: every key once and in order, or an error exactly when there are more
   * keys than the room's limits allow; the cursor always advances.
   */
  method ListTaskJobRecords(keys: seq<string>) returns (records: Option<seq<string>>)
    requires Ascending(keys)
    ensures records == if |keys| <= RECORD_LIMIT then Some(keys) else None
  {
    var read: seq<string> := [];
    var startAfter: Option<string> := None;
    while true
      invariant |read| <= |keys| && read == keys[..|read|]
      invariant |read| <= RECORD_LIMIT
      invariant startAfter == Cursor(keys, |read|)
      decreases |keys| - |read|
    {
      var page := ListPage(keys, startAfter, PAGE);
      PageIsNextStretch(keys, |read|);
      read := read + page;
      assert read == keys[..|read|];
      if |read| > RECORD_LIMIT {
        return None;
      }
      if |page| < PAGE {
        assert keys[..|keys|] == keys;
        return Some(read);
      }
      var last := page[|page| - 1];
      if startAfter.Some? && !Less(startAfter.value, last) {
        return None;
      }
      startAfter := Some(last);
    }
  }

  predicate LessOrEqual(a: string, b: string) { a == b || Less(a, b) }

  lemma {:induction false} InsertAscending(x: string, keys: seq<string>)
    requires Ascending(keys) && x !in keys
    ensures Ascending(Insert(x, keys, LessOrEqual))
  {
    if keys != [] {
      LessTotal(x, keys[0]);
      if LessOrEqual(x, keys[0]) {
        forall j | 0 <= j < |keys| ensures Less(x, keys[j]) {
          if j > 0 {
            LessTransitive(x, keys[0], keys[j]);
          }
        }
      } else {
        InsertAscending(x, keys[1..]);
        var t := Insert(x, keys[1..], LessOrEqual);
        forall j | 0 <= j < |t| ensures Less(keys[0], t[j]) {
          assert t[j] == x || t[j] in keys[1..];
        }
      }
    }
  }

  /** Storage keeps its keys in order. */
  method InKeyOrder(ids: set<string>) returns (keys: seq<string>)
    ensures Ascending(keys) && |keys| == |ids| && forall id :: id in keys <==> id in ids
  {
    keys := [];
    var todo := ids;
    while todo != {}
      invariant todo <= ids && Ascending(keys) && |keys| + |todo| == |ids|
      invariant forall id :: id in keys <==> id in ids - todo
      decreases todo
    {
      var id :| id in todo;
      InsertAscending(id, keys);
      keys := Insert(id, keys, LessOrEqual);
      todo := todo - {id};
    }
  }

  lemma AscendingDistinct(keys: seq<string>)
    requires Ascending(keys)
    ensures Distinct(keys)
  {
    forall i, j | 0 <= i < j < |keys| ensures keys[i] != keys[j] {
      LessAsymmetric(keys[i], keys[j]);
    }
  }
}
