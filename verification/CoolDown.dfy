/**
 * Reconnect cool-down: a bounded, swept, in-memory registry that answers as if it remembered every
 * strike of every identity for ever.
 */
module CoolDown {
  import opened Lists

  const SWEEP_PER_STRIKE := 8
  const EXPONENT_CAP := 30

  datatype Settings = Settings(baseMs: nat, maxMs: nat, resetMs: nat, maxEntries: nat)

  const DEFAULTS := Settings(5000, 5 * 60000, 15 * 60000, 10000)

  datatype Entry = Entry(strikes: nat, until: int, admissionOnly: bool)
  /** The insertion-ordered Map as a sequence, least recently struck first. */
  datatype Slot = Slot(key: string, entry: Entry)

  // ---- the backoff ----

  function Pow2(n: nat): (p: nat)
    ensures p >= 1
  {
    if n == 0 then 1 else 2 * Pow2(n - 1)
  }

  function Min(a: int, b: int): int { if a < b then a else b }

  /** As computed, with the exponent cut off at 30. */
  function Backoff(c: Settings, strikes: nat): nat
    requires strikes > 0
  {
    Min(c.maxMs, c.baseMs * Pow2(Min(strikes - 1, EXPONENT_CAP)))
  }

  /** Doubling with every strike up to the maximum. */
  function Doubling(c: Settings, strikes: nat): nat
    requires strikes > 0
  {
    Min(c.maxMs, c.baseMs * Pow2(strikes - 1))
  }

  lemma {:induction false} Pow2Monotone(m: nat, n: nat)
    requires m <= n
    ensures Pow2(m) <= Pow2(n)
  {
    if m < n {
      Pow2Monotone(m, n - 1);
    }
  }

  lemma BackoffAtCap(c: Settings, strikes: nat)
    requires c.baseMs == 0 || c.baseMs * Pow2(EXPONENT_CAP) >= c.maxMs
    requires strikes > 0
    ensures Backoff(c, strikes) == Doubling(c, strikes)
  {
    hide Pow2;
    if strikes - 1 > EXPONENT_CAP && c.baseMs > 0 {
      Pow2Monotone(EXPONENT_CAP, strikes - 1);
      Scale(c.baseMs, Pow2(EXPONENT_CAP), Pow2(strikes - 1));
    }
  }

  lemma Scale(base: nat, p: nat, q: nat)
    requires p <= q
    ensures base * p <= base * q
  {
  }

  /** The cut-off is unobservable at every strike if and only if the maximum is reached by then. */
  lemma CutOffUnobservable(c: Settings)
    ensures (forall n: nat :: n > 0 ==> Backoff(c, n) == Doubling(c, n)) <==>
            (c.baseMs == 0 || c.baseMs * Pow2(EXPONENT_CAP) >= c.maxMs)
  {
    if c.baseMs == 0 || c.baseMs * Pow2(EXPONENT_CAP) >= c.maxMs {
      forall n: nat | n > 0 ensures Backoff(c, n) == Doubling(c, n) {
        BackoffAtCap(c, n);
      }
    } else {
      CutOffSeen(c);
    }
  }

  lemma CutOffSeen(c: Settings)
    requires c.baseMs > 0 && c.baseMs * Pow2(EXPONENT_CAP) < c.maxMs
    ensures Backoff(c, EXPONENT_CAP + 2) < Doubling(c, EXPONENT_CAP + 2)
  {
    var p := Pow2(EXPONENT_CAP);
    hide Pow2;
    Pow2Step(EXPONENT_CAP);
    Twice(c.baseMs, p);
  }

  lemma Pow2Step(n: nat)
    ensures Pow2(n + 1) == 2 * Pow2(n)
  {
  }

  lemma Twice(base: nat, p: nat)
    requires base > 0 && p >= 1
    ensures base * (2 * p) == 2 * (base * p) && base * p >= 1
  {
  }

  lemma DefaultsCutOffUnobservable()
    ensures forall n: nat :: n > 0 ==> Backoff(DEFAULTS, n) == Doubling(DEFAULTS, n)
  {
    assert Pow2(EXPONENT_CAP) >= 60 by {
      assert Pow2(6) == 64;
      hide Pow2;
      Pow2Monotone(6, EXPONENT_CAP);
    }
    hide Pow2;
    CutOffUnobservable(DEFAULTS);
  }

  // ---- the registry's operations on its entries ----

  predicate Stale(c: Settings, entry: Entry, now: int) { now - entry.until > c.resetMs }

  function KeyOf(s: Slot): string { s.key }

  predicate Unique(entries: seq<Slot>) { UniqueBy(entries, KeyOf) }

  function Other(key: string): Slot -> bool { (s: Slot) => s.key != key }

  function Find(entries: seq<Slot>, key: string): (entry: Option<Entry>)
    ensures entry.Some? ==> Slot(key, entry.value) in entries
    ensures entry.None? ==> forall s :: s in entries ==> s.key != key
  {
    if entries == [] then None
    else if entries[0].key == key then Some(entries[0].entry)
    else Find(entries[1..], key)
  }

  function NextEntry(c: Settings, previous: Option<Entry>, admission: bool, now: int): Entry {
    var renewed := previous.None? || Stale(c, previous.value, now);
    var strikes := if renewed then 1 else previous.value.strikes + 1;
    Entry(strikes, now + Backoff(c, strikes), admission && (renewed || previous.value.admissionOnly))
  }

  /** `sweep`, with the slots already looked at in `kept`. */
  function Swept(c: Settings, kept: seq<Slot>, rest: seq<Slot>, checked: nat, now: int): seq<Slot>
    decreases rest
  {
    if rest == [] || (|kept| + |rest| <= c.maxEntries && checked >= SWEEP_PER_STRIKE) then kept + rest
    else if |kept| + |rest| > c.maxEntries || Stale(c, rest[0].entry, now) then Swept(c, kept, rest[1..], checked + 1, now)
    else Swept(c, kept + [rest[0]], rest[1..], checked + 1, now)
  }

  /** The struck identity moves to the end. */
  function Moved(c: Settings, entries: seq<Slot>, key: string, admission: bool, now: int): seq<Slot> {
    Filter(entries, Other(key)) + [Slot(key, NextEntry(c, Find(entries, key), admission, now))]
  }

  function Struck(c: Settings, entries: seq<Slot>, key: string, admission: bool, now: int): seq<Slot> {
    Swept(c, [], Moved(c, entries, key, admission, now), 0, now)
  }

  function Wait(c: Settings, entry: Option<Entry>, admitted: bool, now: int): nat {
    if entry.None? || (admitted && entry.value.admissionOnly) || Stale(c, entry.value, now) || entry.value.until < now then 0
    else entry.value.until - now
  }

  function Asked(c: Settings, entries: seq<Slot>, key: string, admitted: bool, now: int): seq<Slot> {
    var entry := Find(entries, key);
    if key != "" && entry.Some? && ((admitted && entry.value.admissionOnly) || Stale(c, entry.value, now))
    then Filter(entries, Other(key)) else entries
  }

  class CoolDownRegistry {
    const c: Settings
    var entries: seq<Slot>

    constructor (c: Settings)
      ensures this.c == c && entries == []
    {
      this.c, entries := c, [];
    }

    method Sweep(now: int)
      modifies this
      ensures entries == Swept(c, [], old(entries), 0, now)
    {
      hide Stale;
      var i, checked: nat := 0, 0;
      assert entries[..0] == [] && entries[0..] == entries;
      while i < |entries|
        invariant i <= |entries|
        invariant Swept(c, [], old(entries), 0, now) == Swept(c, entries[..i], entries[i..], checked, now)
        decreases |entries| - i
      {
        ghost var kept, rest := entries[..i], entries[i..];
        assert kept + rest == entries && rest[1..] == entries[i + 1..];
        if |entries| <= c.maxEntries && checked >= SWEEP_PER_STRIKE {
          return;
        }
        checked := checked + 1;
        if |entries| > c.maxEntries || Stale(c, entries[i].entry, now) {
          entries := entries[..i] + entries[i + 1..];
          assert entries[..i] == kept && entries[i..] == rest[1..];
        } else {
          assert entries[..i + 1] == kept + [rest[0]];
          i := i + 1;
        }
      }
      assert entries[..i] == entries && entries[i..] == [];
    }

    method Strike(key: string, admission: bool, now: int) returns (backoffMs: nat)
      modifies this
      ensures entries == Struck(c, old(entries), key, admission, now)
      ensures var entry := NextEntry(c, Find(old(entries), key), admission, now);
              backoffMs == Backoff(c, entry.strikes) == entry.until - now
      ensures var previous := Find(old(entries), key);
              var n := if previous.Some? && now <= previous.value.until + c.resetMs then previous.value.strikes else 0;
              backoffMs == Min(c.maxMs, c.baseMs * Pow2(if n > 30 then 30 else n))
    {
      hide Swept, Stale, Pow2;
      var previous := Find(entries, key);
      var renewed := previous.None? || now - previous.value.until > c.resetMs;
      assert renewed <==> previous.None? || Stale(c, previous.value, now) by {
        StaleMeans(c, previous, now);
      }
      var strikes := if renewed then 1 else previous.value.strikes + 1;
      backoffMs := Min(c.maxMs, c.baseMs * Pow2(Min(strikes - 1, EXPONENT_CAP)));
      var entry := Entry(strikes, now + backoffMs, admission && (renewed || previous.value.admissionOnly));
      entries := Filter(entries, (s: Slot) => s.key != key) + [Slot(key, entry)];
      FilterCongruent(old(entries), (s: Slot) => s.key != key, Other(key));
      Sweep(now);
    }

    /** `admitted` says that the socket proved a valid managed admission lease. */
    method Remaining(key: string, admitted: bool, now: int) returns (ms: nat)
      modifies this
      ensures entries == Asked(c, old(entries), key, admitted, now)
      ensures ms == if key == "" then 0 else Wait(c, Find(old(entries), key), admitted, now)
      ensures var entry := Find(old(entries), key);
              ms == if key != "" && entry.Some? && !(admitted && entry.value.admissionOnly) && now < entry.value.until
                    then entry.value.until - now else 0
    {
      if key == "" {
        return 0;
      }
      var entry := Find(entries, key);
      if entry.None? {
        return 0;
      }
      if (admitted && entry.value.admissionOnly) || now - entry.value.until > c.resetMs {
        entries := Filter(entries, (s: Slot) => s.key != key);
        FilterCongruent(old(entries), (s: Slot) => s.key != key, Other(key));
        return 0;
      }
      return if entry.value.until < now then 0 else entry.value.until - now;
    }
  }

  lemma StaleMeans(c: Settings, entry: Option<Entry>, now: int)
    ensures entry.Some? ==> (Stale(c, entry.value, now) <==> now - entry.value.until > c.resetMs)
  {
  }

  // ---- the reference: every strike of every identity, never swept ----

  datatype Strike = Strike(at: int, admission: bool)

  /** For each identity, its strikes since it was created, reset or cleared. */
  type Streaks = map<string, seq<Strike>>

  /** What a streak stands for: doubling backoff from its last strike, and whether all were admission closes. */
  function Summary(c: Settings, streak: seq<Strike>): Entry
    requires streak != []
  {
    Entry(|streak|, streak[|streak| - 1].at + Backoff(c, |streak|), forall s :: s in streak ==> s.admission)
  }

  ghost predicate Proper(streaks: Streaks) { forall k :: k in streaks ==> streaks[k] != [] }

  function Current(c: Settings, streaks: Streaks, key: string): Option<Entry>
    requires Proper(streaks)
  {
    if key in streaks then Some(Summary(c, streaks[key])) else None
  }

  function RefStrike(c: Settings, streaks: Streaks, key: string, admission: bool, now: int): Streaks
    requires Proper(streaks)
  {
    var current := Current(c, streaks, key);
    var strike := Strike(now, admission);
    streaks[key := if current.None? || Stale(c, current.value, now) then [strike] else streaks[key] + [strike]]
  }

  /** Only a proven admission forgets a streak, and only one made of admission closes. */
  function RefAsk(c: Settings, streaks: Streaks, key: string, admitted: bool): Streaks
    requires Proper(streaks)
  {
    if key != "" && key in streaks && admitted && Summary(c, streaks[key]).admissionOnly then streaks - {key} else streaks
  }

  /** The registry and the reference hold the same of an identity, or it holds nothing of a stale streak. */
  ghost predicate AgreesOn(c: Settings, entries: seq<Slot>, streaks: Streaks, key: string, now: int)
    requires Proper(streaks)
  {
    Find(entries, key) == Current(c, streaks, key)
    || (Find(entries, key).None? && key in streaks && Stale(c, Summary(c, streaks[key]), now))
  }

  ghost predicate Agrees(c: Settings, entries: seq<Slot>, streaks: Streaks, now: int) {
    Proper(streaks) && forall key :: AgreesOn(c, entries, streaks, key, now)
  }

  lemma SummaryExtends(c: Settings, streak: seq<Strike>, strike: Strike)
    ensures Summary(c, streak + [strike]) ==
            Entry(|streak| + 1, strike.at + Backoff(c, |streak| + 1),
                  strike.admission && (streak == [] || Summary(c, streak).admissionOnly))
  {
  }

  /** Where both agree, every next answer about the identity is the same. */
  lemma SameAnswers(c: Settings, entries: seq<Slot>, streaks: Streaks, key: string, before: int, now: int)
    requires Proper(streaks) && AgreesOn(c, entries, streaks, key, before) && before <= now
    ensures forall admission :: NextEntry(c, Find(entries, key), admission, now)
                                == NextEntry(c, Current(c, streaks, key), admission, now)
    ensures forall admitted :: Wait(c, Find(entries, key), admitted, now) == Wait(c, Current(c, streaks, key), admitted, now)
    ensures AgreesOn(c, entries, streaks, key, now)
  {
    hide Summary, Pow2;
  }

  lemma RefStrikeSummary(c: Settings, streaks: Streaks, key: string, admission: bool, now: int)
    requires Proper(streaks)
    ensures var after := RefStrike(c, streaks, key, admission, now);
            && Proper(after) && after.Keys == streaks.Keys + {key}
            && Summary(c, after[key]) == NextEntry(c, Current(c, streaks, key), admission, now)
            && forall k :: k in streaks && k != key ==> after[k] == streaks[k]
  {
  }

  // ---- what sweeping drops ----

  /** While the Map fits, a sweep drops only stale entries. */
  lemma {:induction false} SweepDropsStale(c: Settings, kept: seq<Slot>, rest: seq<Slot>, checked: nat, now: int)
    requires |kept| + |rest| <= c.maxEntries
    ensures var after := Swept(c, kept, rest, checked, now);
            && |after| <= |kept| + |rest|
            && (forall s :: s in after ==> s in kept || s in rest)
            && (forall s :: s in kept ==> s in after)
            && (forall s :: s in rest && !Stale(c, s.entry, now) ==> s in after)
    decreases rest
  {
    hide Stale;
    if rest != [] && checked < SWEEP_PER_STRIKE {
      assert rest == [rest[0]] + rest[1..];
      if Stale(c, rest[0].entry, now) {
        SweepDropsStale(c, kept, rest[1..], checked + 1, now);
      } else {
        SweepDropsStale(c, kept + [rest[0]], rest[1..], checked + 1, now);
      }
    }
  }

  /** A full Map gives up its least recently struck identity, and otherwise only stale ones. */
  lemma FullMapDropsOldest(c: Settings, entries: seq<Slot>, now: int)
    requires |entries| == c.maxEntries + 1
    ensures var after := Swept(c, [], entries, 0, now);
            && |after| <= c.maxEntries
            && (forall s :: s in after ==> s in entries[1..])
            && (forall s :: s in entries[1..] && !Stale(c, s.entry, now) ==> s in after)
  {
    SweepDropsStale(c, [], entries[1..], 1, now);
  }

  lemma {:induction false} SweptUnique(c: Settings, kept: seq<Slot>, rest: seq<Slot>, checked: nat, now: int)
    requires Unique(kept + rest)
    ensures Unique(Swept(c, kept, rest, checked, now))
    decreases rest
  {
    if rest != [] {
      hide Stale;
      DropOneUnique(kept, rest);
      hide Unique;
      assert kept + [rest[0]] + rest[1..] == kept + rest;
      SweptUnique(c, kept, rest[1..], checked + 1, now);
      SweptUnique(c, kept + [rest[0]], rest[1..], checked + 1, now);
    }
  }

  lemma DropOneUnique(kept: seq<Slot>, rest: seq<Slot>)
    requires rest != [] && Unique(kept + rest)
    ensures Unique(kept + rest[1..])
  {
    var all, less := kept + rest, kept + rest[1..];
    forall i, j | 0 <= i < j < |less| ensures KeyOf(less[i]) != KeyOf(less[j]) {
      var a := if i < |kept| then i else i + 1;
      var b := if j < |kept| then j else j + 1;
      assert less[i] == all[a] && less[j] == all[b];
    }
  }

  lemma FindUnique(entries: seq<Slot>, s: Slot)
    requires Unique(entries) && s in entries
    ensures Find(entries, s.key) == Some(s.entry)
  {
    var found := Slot(s.key, Find(entries, s.key).value);
    var i :| 0 <= i < |entries| && entries[i] == s;
    var j :| 0 <= j < |entries| && entries[j] == found;
    assert KeyOf(s) == KeyOf(found);
  }

  lemma MovedUnique(c: Settings, entries: seq<Slot>, key: string, admission: bool, now: int)
    requires Unique(entries)
    ensures Unique(Moved(c, entries, key, admission, now))
    ensures |Moved(c, entries, key, admission, now)| <= |entries| + 1
  {
    hide NextEntry, UniqueBy;
    FilterUnique(entries, Other(key), KeyOf);
    AppendUnique(Filter(entries, Other(key)), Slot(key, NextEntry(c, Find(entries, key), admission, now)), KeyOf);
  }

  lemma OthersFound(entries: seq<Slot>, key: string, k: string)
    requires Unique(entries)
    ensures Find(Filter(entries, Other(key)), k) == if k == key then None else Find(entries, k)
  {
    var others := Filter(entries, Other(key));
    FilterUnique(entries, Other(key), KeyOf);
    hide UniqueBy;
    if k != key && Find(entries, k).Some? {
      FindUnique(others, Slot(k, Find(entries, k).value));
    }
  }

  lemma MovedFinds(c: Settings, entries: seq<Slot>, key: string, admission: bool, now: int, k: string)
    requires Unique(entries)
    ensures Find(Moved(c, entries, key, admission, now), k) ==
            if k == key then Some(NextEntry(c, Find(entries, key), admission, now)) else Find(entries, k)
  {
    hide NextEntry, UniqueBy;
    var moved, s := Moved(c, entries, key, admission, now), Slot(key, NextEntry(c, Find(entries, key), admission, now));
    MovedUnique(c, entries, key, admission, now);
    if k == key {
      FindUnique(moved, s);
    } else {
      OthersFound(entries, key, k);
      if Find(entries, k).Some? {
        FindUnique(moved, Slot(k, Find(entries, k).value));
      }
    }
  }

  /** The slot a full Map gives up for the struck identity, when nothing excuses it. */
  predicate Displaces(c: Settings, moved: seq<Slot>, now: int) {
    |moved| > c.maxEntries && !Stale(c, moved[0].entry, now)
  }

  /** A sweep keeps every entry as it was, or drops a stale one or the one a full Map gives up. */
  lemma SweptFinds(c: Settings, moved: seq<Slot>, now: int, k: string)
    requires Unique(moved) && |moved| <= c.maxEntries + 1
    ensures var found := Find(Swept(c, [], moved, 0, now), k);
            if Displaces(c, moved, now) && k == moved[0].key then found.None?
            else found == Find(moved, k) || (found.None? && Find(moved, k).Some? && Stale(c, Find(moved, k).value, now))
  {
    hide Stale, Swept;
    var after := Swept(c, [], moved, 0, now);
    if |moved| <= c.maxEntries {
      SweepDropsStale(c, [], moved, 0, now);
    } else {
      FullMapDropsOldest(c, moved, now);
      HeadDiffers(moved, KeyOf);
      FindUnique(moved, moved[0]);
    }
    assert [] + moved == moved;
    SweptUnique(c, [], moved, 0, now);
    hide UniqueBy;
    if Find(after, k).Some? {
      FindUnique(moved, Slot(k, Find(after, k).value));
    } else if Find(moved, k).Some? {
      assert Slot(k, Find(moved, k).value) in moved && Slot(k, Find(moved, k).value) !in after;
    }
  }

  /** The size bound and one slot per identity, whatever is asked of the registry. */
  lemma StruckBounded(c: Settings, entries: seq<Slot>, key: string, admission: bool, now: int)
    requires Unique(entries) && |entries| <= c.maxEntries
    ensures var after := Struck(c, entries, key, admission, now);
            Unique(after) && |after| <= c.maxEntries
  {
    hide Unique, Moved, Swept;
    MovedUnique(c, entries, key, admission, now);
    var moved := Moved(c, entries, key, admission, now);
    assert [] + moved == moved;
    SweptUnique(c, [], moved, 0, now);
    if |moved| <= c.maxEntries {
      SweepDropsStale(c, [], moved, 0, now);
    } else {
      FullMapDropsOldest(c, moved, now);
    }
  }

  lemma AskedBounded(c: Settings, entries: seq<Slot>, key: string, admitted: bool, now: int)
    requires Unique(entries)
    ensures Unique(Asked(c, entries, key, admitted, now)) && |Asked(c, entries, key, admitted, now)| <= |entries|
  {
    FilterUnique(entries, Other(key), KeyOf);
  }

  // ---- one event, seen by both ----

  datatype Action = Strikes(key: string, admission: bool) | Asks(key: string, admitted: bool)
  datatype Event = Event(now: int, action: Action)
  datatype Both = Both(entries: seq<Slot>, streaks: Streaks)

  /** The registry and the reference, side by side. */
  ghost function Next(c: Settings, b: Both, e: Event): Both {
    if !Proper(b.streaks) then b
    else match e.action
      case Strikes(key, admission) =>
        Both(Struck(c, b.entries, key, admission, e.now), RefStrike(c, b.streaks, key, admission, e.now))
      case Asks(key, admitted) =>
        Both(Asked(c, b.entries, key, admitted, e.now), RefAsk(c, b.streaks, key, admitted))
  }

  /** What `Strike` and `Remaining` answer, as proved of the methods. */
  function Answer(c: Settings, entries: seq<Slot>, e: Event): int {
    match e.action
    case Strikes(key, admission) => NextEntry(c, Find(entries, key), admission, e.now).until - e.now
    case Asks(key, admitted) => if key == "" then 0 else Wait(c, Find(entries, key), admitted, e.now)
  }

  ghost function RefAnswer(c: Settings, streaks: Streaks, e: Event): int
    requires Proper(streaks)
  {
    match e.action
    case Strikes(key, admission) => NextEntry(c, Current(c, streaks, key), admission, e.now).until - e.now
    case Asks(key, admitted) => if key == "" then 0 else Wait(c, Current(c, streaks, key), admitted, e.now)
  }

  /** The strike makes a full Map give up an entry that is not stale. */
  predicate Forgets(c: Settings, entries: seq<Slot>, e: Event) {
    e.action.Strikes? && Displaces(c, Moved(c, entries, e.action.key, e.action.admission, e.now), e.now)
  }

  /** The identity it gives up. */
  function Forgotten(c: Settings, entries: seq<Slot>, e: Event): Slot
    requires e.action.Strikes?
  {
    Moved(c, entries, e.action.key, e.action.admission, e.now)[0]
  }

  /** A strike keeps the agreement on every identity but the one it makes the registry forget. */
  lemma StrikeAgreesBut(c: Settings, b: Both, e: Event, before: int, k: string)
    requires Unique(b.entries) && |b.entries| <= c.maxEntries && e.action.Strikes?
    requires Agrees(c, b.entries, b.streaks, before) && before <= e.now
    ensures var after := Next(c, b, e);
            && Proper(after.streaks)
            && (if Forgets(c, b.entries, e) && k == Forgotten(c, b.entries, e).key
                then Find(after.entries, k).None?
                     && Current(c, after.streaks, k) == Some(Forgotten(c, b.entries, e).entry)
                else AgreesOn(c, after.entries, after.streaks, k, e.now))
  {
    hide Summary, NextEntry, Swept, RefStrike, Stale, Unique;
    var key, admission, now := e.action.key, e.action.admission, e.now;
    var moved := Moved(c, b.entries, key, admission, now);
    assert AgreesOn(c, b.entries, b.streaks, key, before) && AgreesOn(c, b.entries, b.streaks, k, before);
    SameAnswers(c, b.entries, b.streaks, key, before, now);
    SameAnswers(c, b.entries, b.streaks, k, before, now);
    RefStrikeSummary(c, b.streaks, key, admission, now);
    MovedUnique(c, b.entries, key, admission, now);
    MovedFinds(c, b.entries, key, admission, now, k);
    SweptFinds(c, moved, now, k);
    FindUnique(moved, moved[0]);
  }

  lemma StrikeAgrees(c: Settings, b: Both, e: Event, before: int)
    requires Unique(b.entries) && |b.entries| <= c.maxEntries && e.action.Strikes? && !Forgets(c, b.entries, e)
    requires Agrees(c, b.entries, b.streaks, before) && before <= e.now
    ensures Agrees(c, Next(c, b, e).entries, Next(c, b, e).streaks, e.now)
  {
    hide AgreesOn, Next, Forgets, Unique;
    StrikeAgreesBut(c, b, e, before, e.action.key);
    forall k ensures AgreesOn(c, Next(c, b, e).entries, Next(c, b, e).streaks, k, e.now) {
      StrikeAgreesBut(c, b, e, before, k);
    }
  }

  lemma AskAgreesOn(c: Settings, b: Both, e: Event, before: int, k: string)
    requires Unique(b.entries) && e.action.Asks?
    requires Agrees(c, b.entries, b.streaks, before) && before <= e.now
    ensures Proper(Next(c, b, e).streaks) && AgreesOn(c, Next(c, b, e).entries, Next(c, b, e).streaks, k, e.now)
  {
    hide Summary, Unique;
    var key := e.action.key;
    assert AgreesOn(c, b.entries, b.streaks, key, before) && AgreesOn(c, b.entries, b.streaks, k, before);
    SameAnswers(c, b.entries, b.streaks, key, before, e.now);
    SameAnswers(c, b.entries, b.streaks, k, before, e.now);
    OthersFound(b.entries, key, k);
  }

  lemma AskAgrees(c: Settings, b: Both, e: Event, before: int)
    requires Unique(b.entries) && e.action.Asks?
    requires Agrees(c, b.entries, b.streaks, before) && before <= e.now
    ensures Agrees(c, Next(c, b, e).entries, Next(c, b, e).streaks, e.now)
  {
    hide AgreesOn, Next, Unique;
    AskAgreesOn(c, b, e, before, e.action.key);
    forall k ensures AgreesOn(c, Next(c, b, e).entries, Next(c, b, e).streaks, k, e.now) {
      AskAgreesOn(c, b, e, before, k);
    }
  }

  lemma AnsweredAlike(c: Settings, b: Both, before: int, e: Event)
    requires Proper(b.streaks) && AgreesOn(c, b.entries, b.streaks, e.action.key, before) && before <= e.now
    ensures Answer(c, b.entries, e) == RefAnswer(c, b.streaks, e)
  {
    SameAnswers(c, b.entries, b.streaks, e.action.key, before, e.now);
    hide Summary, NextEntry, Wait;
  }

  /** While both agree, every next event is answered alike. */
  lemma AgreeingAnswers(c: Settings, b: Both, before: int, e: Event)
    requires Agrees(c, b.entries, b.streaks, before) && before <= e.now
    ensures Answer(c, b.entries, e) == RefAnswer(c, b.streaks, e)
  {
    hide AgreesOn;
    AnsweredAlike(c, b, before, e);
  }

  // ---- what forgetting costs ----

  /** The backoff still grows after a first strike. */
  predicate Escalates(c: Settings) { 0 < c.baseMs < c.maxMs }

  lemma BackoffGrows(c: Settings, strikes: nat)
    requires strikes > 0
    ensures if Escalates(c) then Backoff(c, 1) < Backoff(c, strikes + 1) else Backoff(c, 1) == Backoff(c, strikes + 1)
  {
    assert Pow2(0) == 1 && Pow2(1) == 2;
    var n := Min(strikes, EXPONENT_CAP);
    hide Pow2;
    Pow2Monotone(1, n);
    Scale(c.baseMs, 2, Pow2(n));
  }

  /** Every later event is answered as the reference answers it. */
  ghost predicate Indistinguishable(c: Settings, b: Both, now: int) {
    Proper(b.streaks) && forall e: Event :: e.now >= now ==> Answer(c, b.entries, e) == RefAnswer(c, b.streaks, e)
  }

  /** An identity the registry has lost and the reference still knows, fresh at `now`. */
  lemma LostSeen(c: Settings, b: Both, lost: Slot, now: int)
    requires Proper(b.streaks) && Find(b.entries, lost.key).None? && Current(c, b.streaks, lost.key) == Some(lost.entry)
    requires !Stale(c, lost.entry, now)
    requires Escalates(c) || (lost.entry.until > now && lost.key != "")
    ensures !Indistinguishable(c, b, now)
  {
    if Escalates(c) {
      BackoffGrows(c, lost.entry.strikes);
      hide Backoff, Summary;
      var e := Event(now, Strikes(lost.key, false));
      assert Answer(c, b.entries, e) == Backoff(c, 1) && RefAnswer(c, b.streaks, e) == Backoff(c, lost.entry.strikes + 1);
    } else {
      hide Backoff, Summary;
      var e := Event(now, Asks(lost.key, false));
      assert Answer(c, b.entries, e) == 0 && RefAnswer(c, b.streaks, e) == lost.entry.until - now;
    }
  }

  lemma LostUnseen(c: Settings, b: Both, lost: Slot, now: int, e: Event)
    requires Proper(b.streaks) && Find(b.entries, lost.key).None? && Current(c, b.streaks, lost.key) == Some(lost.entry)
    requires !Escalates(c) && (lost.entry.until <= now || lost.key == "")
    requires e.now >= now && e.action.key == lost.key
    ensures Answer(c, b.entries, e) == RefAnswer(c, b.streaks, e)
  {
    BackoffGrows(c, lost.entry.strikes);
    hide Backoff, Summary;
  }

  /**
   * When a full Map gives up an entry that is not stale, some next event is answered differently if
   * and only if the backoff grows, so that a strike would start over, or the entry was still waiting.
   */
  lemma ForgettingSeen(c: Settings, b: Both, e: Event, before: int)
    requires Unique(b.entries) && |b.entries| <= c.maxEntries && Forgets(c, b.entries, e)
    requires Agrees(c, b.entries, b.streaks, before) && before <= e.now
    ensures var lost := Forgotten(c, b.entries, e);
            Indistinguishable(c, Next(c, b, e), e.now) <==>
            !Escalates(c) && (lost.entry.until <= e.now || lost.key == "")
  {
    hide Agrees, Next, Unique, Answer, RefAnswer, Moved;
    var after, lost := Next(c, b, e), Forgotten(c, b.entries, e);
    StrikeAgreesBut(c, b, e, before, lost.key);
    if Escalates(c) || (lost.entry.until > e.now && lost.key != "") {
      LostSeen(c, after, lost, e.now);
    } else {
      forall next: Event | next.now >= e.now ensures Answer(c, after.entries, next) == RefAnswer(c, after.streaks, next) {
        if next.action.key == lost.key {
          LostUnseen(c, after, lost, e.now, next);
        } else {
          StrikeAgreesBut(c, b, e, before, next.action.key);
          AnsweredAlike(c, after, e.now, next);
        }
      }
    }
  }

  // ---- whole runs ----

  predicate InOrder(run: seq<Event>) { forall i, j :: 0 <= i < j < |run| ==> run[i].now <= run[j].now }

  ghost predicate StepsAt(c: Settings, run: seq<Event>, h: seq<Both>, k: nat)
    requires k < |run| && |h| == |run| + 1
  {
    h[k + 1] == Next(c, h[k], run[k])
  }

  ghost function States(c: Settings, run: seq<Event>): (h: seq<Both>)
    ensures |h| == |run| + 1 && h[0] == Both([], map[])
    ensures forall k :: 0 <= k < |run| ==> StepsAt(c, run, h, k)
  {
    if run == [] then [Both([], map[])] else
      var n := |run| - 1;
      var h := States(c, run[..n]);
      var r := h + [Next(c, h[n], run[n])];
      hide Next;
      assert forall k :: 0 <= k < n ==> StepsAt(c, run, r, k) by {
        forall k | 0 <= k < n ensures StepsAt(c, run, r, k) {
          assert StepsAt(c, run[..n], h, k);
        }
      }
      r
  }

  lemma StepBounded(c: Settings, b: Both, e: Event)
    requires Unique(b.entries) && |b.entries| <= c.maxEntries
    ensures Unique(Next(c, b, e).entries) && |Next(c, b, e).entries| <= c.maxEntries
  {
    hide Unique, Struck, Asked;
    match e.action
    case Strikes(key, admission) => StruckBounded(c, b.entries, key, admission, e.now);
    case Asks(key, admitted) => AskedBounded(c, b.entries, key, admitted, e.now);
  }

  /** In every reachable state the registry holds at most `maxEntries` identities, each once. */
  lemma {:induction false} AlwaysBounded(c: Settings, run: seq<Event>, k: nat)
    requires k <= |run|
    ensures var entries := States(c, run)[k].entries; Unique(entries) && |entries| <= c.maxEntries
  {
    if k > 0 {
      hide Unique, Next;
      AlwaysBounded(c, run, k - 1);
      assert StepsAt(c, run, States(c, run), k - 1);
      StepBounded(c, States(c, run)[k - 1], run[k - 1]);
    }
  }

  /** The time of the last of the first `k` events. */
  function Clock(run: seq<Event>, k: nat): int
    requires 0 < |run| && k <= |run|
  {
    if k == 0 then run[0].now else run[k - 1].now
  }

  /** None of the first `k` events makes a full registry give up an entry that is not stale. */
  ghost predicate NeverForgets(c: Settings, run: seq<Event>, k: nat)
    requires k <= |run|
  {
    forall i :: 0 <= i < k ==> !Forgets(c, States(c, run)[i].entries, run[i])
  }

  /** Registry and reference agree as long as nothing but stale entries is pushed out. */
  lemma {:induction false} AgreesAlong(c: Settings, run: seq<Event>, k: nat)
    requires InOrder(run) && run != [] && k <= |run| && NeverForgets(c, run, k)
    ensures Agrees(c, States(c, run)[k].entries, States(c, run)[k].streaks, Clock(run, k))
  {
    if k == 0 {
      NothingAgrees(c, run[0].now);
    } else {
      hide Unique, Next, Agrees, Forgets;
      AgreesAlong(c, run, k - 1);
      AlwaysBounded(c, run, k - 1);
      assert StepsAt(c, run, States(c, run), k - 1);
      if run[k - 1].action.Strikes? {
        StrikeAgrees(c, States(c, run)[k - 1], run[k - 1], Clock(run, k - 1));
      } else {
        AskAgrees(c, States(c, run)[k - 1], run[k - 1], Clock(run, k - 1));
      }
    }
  }

  /**
   * Over any run with a clock that does not go back, every answer is that of the map which is never
   * swept, as long as each overflow before it pushed out a stale entry: sweeping and lazy deletion
   * are unobservable.
   */
  lemma RegistryRefines(c: Settings, run: seq<Event>, k: nat)
    requires InOrder(run) && k < |run| && NeverForgets(c, run, k)
    ensures var b := States(c, run)[k];
            Proper(b.streaks) && Answer(c, b.entries, run[k]) == RefAnswer(c, b.streaks, run[k])
  {
    AgreesAlong(c, run, k);
    AgreeingAnswers(c, States(c, run)[k], Clock(run, k), run[k]);
  }

  /** No event that might come next is answered differently, at any point of the run. */
  ghost predicate NeverDiffers(c: Settings, run: seq<Event>, k: nat)
    requires run != [] && k <= |run|
  {
    forall i :: 0 <= i <= k ==> Indistinguishable(c, States(c, run)[i], Clock(run, i))
  }

  /**
   * With a growing backoff that condition is exact: at no point of a run could a next event tell
   * the registry from the reference if and only if no overflow pushed out an entry that was not stale.
   */
  lemma {:induction false} RefinementExact(c: Settings, run: seq<Event>, k: nat)
    requires InOrder(run) && run != [] && k <= |run| && Escalates(c)
    ensures NeverDiffers(c, run, k) <==> NeverForgets(c, run, k)
  {
    hide Unique, Next, Forgets, Indistinguishable, Escalates;
    if k == 0 {
      AgreesAlong(c, run, 0);
      AgreesIndistinguishable(c, States(c, run)[0], Clock(run, 0));
    } else {
      RefinementExact(c, run, k - 1);
      if NeverForgets(c, run, k - 1) {
        AlwaysBounded(c, run, k - 1);
        AgreesAlong(c, run, k - 1);
        assert StepsAt(c, run, States(c, run), k - 1);
        if Forgets(c, States(c, run)[k - 1].entries, run[k - 1]) {
          ForgettingSeen(c, States(c, run)[k - 1], run[k - 1], Clock(run, k - 1));
          assert !Indistinguishable(c, States(c, run)[k], Clock(run, k));
        } else {
          AgreesAlong(c, run, k);
          AgreesIndistinguishable(c, States(c, run)[k], Clock(run, k));
        }
      }
    }
  }

  lemma AgreesIndistinguishable(c: Settings, b: Both, now: int)
    requires Agrees(c, b.entries, b.streaks, now)
    ensures Indistinguishable(c, b, now)
  {
    hide Answer, RefAnswer, Agrees;
    AgreesProper(c, b, now);
    forall e: Event | e.now >= now ensures Answer(c, b.entries, e) == RefAnswer(c, b.streaks, e) {
      AgreeingAnswers(c, b, now, e);
    }
  }

  lemma AgreesProper(c: Settings, b: Both, now: int)
    requires Agrees(c, b.entries, b.streaks, now)
    ensures Proper(b.streaks)
  {
  }

  lemma NothingAgrees(c: Settings, now: int)
    ensures Agrees(c, [], map[], now)
  {
  }

  /** The default settings grow, so the condition is exact for them, however many identities fit. */
  lemma DefaultsExact(maxEntries: nat, run: seq<Event>, k: nat)
    requires InOrder(run) && run != [] && k <= |run|
    ensures var c := DEFAULTS.(maxEntries := maxEntries); NeverDiffers(c, run, k) <==> NeverForgets(c, run, k)
  {
    RefinementExact(DEFAULTS.(maxEntries := maxEntries), run, k);
  }
}
