/** What the cool-down answers, said of the strikes and admissions that came before. */
module CoolDownHistory {
  import opened Lists
  import opened CoolDown

  /** The backoff after `n` strikes in a row: the base, doubled with each further strike, up to the maximum. */
  function BackoffAfter(c: Settings, n: nat): nat
    requires n > 0
  {
    if c.baseMs * Pow2(n - 1) < c.maxMs then c.baseMs * Pow2(n - 1) else c.maxMs
  }

  /** The maximum is reached before the exponent is cut off. */
  predicate CutOffUnseen(c: Settings) { c.baseMs == 0 || c.baseMs * 1073741824 >= c.maxMs }

  /**
   * The strikes in a row of an identity after these events. A strike continues the row unless more
   * than `resetMs` have passed since its last backoff ended; a proven admission ends a row that
   * consists of admission closes.
   */
  ghost function Streak(c: Settings, run: seq<Event>, key: string): (s: seq<Strike>) {
    if run == [] then []
    else
      var before, e := Streak(c, run[..|run| - 1], key), run[|run| - 1];
      match e.action
      case Strikes(other, admission) =>
        if other != key then before
        else if before != [] && e.now <= before[|before| - 1].at + BackoffAfter(c, |before|) + c.resetMs
        then before + [Strike(e.now, admission)] else [Strike(e.now, admission)]
      case Asks(other, admitted) =>
        if other == key && key != "" && admitted && AllAdmission(before) then [] else before
  }

  predicate AllAdmission(s: seq<Strike>) { forall i :: 0 <= i < |s| ==> s[i].admission }

  lemma Pow2Thirty()
    ensures Pow2(30) == 1073741824
  {
    assert Pow2(10) == 1024;
    hide Pow2;
    Pow2Shift(10, 10);
    Pow2Shift(20, 10);
  }

  lemma {:induction false} Pow2Shift(m: nat, n: nat)
    ensures Pow2(m + n) == Pow2(m) * Pow2(n)
  {
    if n > 0 {
      Pow2Shift(m, n - 1);
      Regroup(Pow2(m), Pow2(n - 1));
      assert m + n - 1 == m + (n - 1);
    }
  }

  lemma Regroup(a: nat, b: nat)
    ensures 2 * (a * b) == a * (2 * b)
  {
  }

  lemma BackoffIs(c: Settings, n: nat)
    requires n > 0 && CutOffUnseen(c)
    ensures Backoff(c, n) == BackoffAfter(c, n)
  {
    Pow2Thirty();
    hide Pow2;
    BackoffAtCap(c, n);
  }

  /** The reference holds exactly this row of strikes of the identity. */
  ghost predicate Holds(streaks: Streaks, key: string, s: seq<Strike>) {
    if key in streaks then streaks[key] == s && s != [] else s == []
  }

  lemma StepHolds(c: Settings, b: Both, e: Event, key: string, run: seq<Event>)
    requires CutOffUnseen(c) && run != [] && run[|run| - 1] == e
    requires Proper(b.streaks) && Holds(b.streaks, key, Streak(c, run[..|run| - 1], key))
    ensures Proper(Next(c, b, e).streaks) && Holds(Next(c, b, e).streaks, key, Streak(c, run, key))
  {
    var before := Streak(c, run[..|run| - 1], key);
    hide Struck, Asked, BackoffAfter, CutOffUnseen, Backoff;
    if before != [] {
      BackoffIs(c, |before|);
      assert AllAdmission(before) <==> forall s :: s in before ==> s.admission;
    }
  }

  lemma {:induction false} ReferenceHolds(c: Settings, run: seq<Event>, k: nat, key: string)
    requires CutOffUnseen(c) && k <= |run|
    ensures Proper(States(c, run)[k].streaks) && Holds(States(c, run)[k].streaks, key, Streak(c, run[..k], key))
  {
    hide Next, Holds, CutOffUnseen;
    if k > 0 {
      ReferenceHolds(c, run, k - 1, key);
      assert StepsAt(c, run, States(c, run), k - 1);
      assert run[..k][..k - 1] == run[..k - 1];
      StepHolds(c, States(c, run)[k - 1], run[k - 1], key, run[..k]);
    } else {
      NothingHeld(c, key);
    }
  }

  lemma NothingHeld(c: Settings, key: string)
    ensures Holds(map[], key, Streak(c, [], key))
  {
  }

  /**
   * The answer to whoever asks: nothing for an identity without strikes in a row, or a proven
   * admission after admission closes only; else what is left of the backoff of its row of strikes.
   */
  lemma AskedExactly(c: Settings, run: seq<Event>, k: nat, key: string, admitted: bool)
    requires InOrder(run) && k < |run| && NeverForgets(c, run, k) && CutOffUnseen(c)
    requires run[k].action == Asks(key, admitted)
    ensures var s := Streak(c, run[..k], key);
            Answer(c, States(c, run)[k].entries, run[k]) ==
              if key == "" || s == [] || (admitted && AllAdmission(s)) then 0
              else
                var end := s[|s| - 1].at + BackoffAfter(c, |s|);
                if run[k].now < end then end - run[k].now else 0
  {
    var s := Streak(c, run[..k], key);
    RegistryRefines(c, run, k);
    ReferenceHolds(c, run, k, key);
    hide States, Streak, Answer, BackoffAfter, CutOffUnseen, Backoff, NeverForgets, InOrder;
    if s != [] {
      BackoffIs(c, |s|);
      assert AllAdmission(s) <==> forall x :: x in s ==> x.admission;
    }
  }

  /** The answer to a strike: the whole backoff of the row of strikes it continues or begins. */
  lemma StruckExactly(c: Settings, run: seq<Event>, k: nat, key: string, admission: bool)
    requires InOrder(run) && k < |run| && NeverForgets(c, run, k) && CutOffUnseen(c)
    requires run[k].action == Strikes(key, admission)
    ensures var s := Streak(c, run[..k + 1], key);
            && s != [] && s[|s| - 1] == Strike(run[k].now, admission)
            && Answer(c, States(c, run)[k].entries, run[k]) == BackoffAfter(c, |s|)
  {
    var before, s := Streak(c, run[..k], key), Streak(c, run[..k + 1], key);
    assert run[..k + 1][..k] == run[..k];
    RegistryRefines(c, run, k);
    ReferenceHolds(c, run, k, key);
    hide States, Streak, Answer, BackoffAfter, CutOffUnseen, Backoff, NeverForgets, InOrder;
    BackoffIs(c, |s|);
    if before != [] {
      BackoffIs(c, |before|);
    }
  }

  lemma {:induction false} ClearedStays(c: Settings, run: seq<Event>, i: nat, j: nat, key: string)
    requires i <= j <= |run| && Streak(c, run[..i], key) == []
    requires forall n :: i <= n < j ==> !(run[n].action.Strikes? && run[n].action.key == key)
    ensures Streak(c, run[..j], key) == []
    decreases j
  {
    if i < j {
      ClearedStays(c, run, i, j - 1, key);
      assert run[..j][..j - 1] == run[..j - 1];
    }
  }

  /** Once an admission was proven after admission closes only, nobody waits for that identity until its next strike. */
  lemma {:induction false} AdmissionClears(c: Settings, run: seq<Event>, i: nat, j: nat, key: string, admitted: bool)
    requires InOrder(run) && i <= j < |run| && NeverForgets(c, run, j) && CutOffUnseen(c)
    requires run[i].action == Asks(key, true) && AllAdmission(Streak(c, run[..i], key))
    requires run[j].action == Asks(key, admitted)
    requires forall n :: i < n < j ==> !(run[n].action.Strikes? && run[n].action.key == key)
    ensures Answer(c, States(c, run)[j].entries, run[j]) == 0
  {
    AskedExactly(c, run, j, key, admitted);
    if i < j && key != "" {
      assert run[..i + 1][..i] == run[..i];
      ClearedStays(c, run, i + 1, j, key);
    }
    hide Answer, States, NeverForgets;
  }

  // ---- what a sweep looks at ----

  /** The entry's backoff ended more than `resetMs` ago. */
  function Fresh(c: Settings, now: int): Slot -> bool { (s: Slot) => now <= s.entry.until + c.resetMs }

  function FirstOf<T>(s: seq<T>, n: nat): seq<T> { if |s| <= n then s else s[..n] }
  function After<T>(s: seq<T>, n: nat): seq<T> { if |s| <= n then [] else s[n..] }

  /** What a sweep leaves of `rest` when it looks at `n` more slots. */
  function Left(c: Settings, rest: seq<Slot>, n: nat, now: int): seq<Slot> {
    Filter(FirstOf(rest, n), Fresh(c, now)) + After(rest, n)
  }

  lemma FirstOfStep<T>(x: T, s: seq<T>, n: nat)
    requires n > 0
    ensures FirstOf([x] + s, n) == [x] + FirstOf(s, n - 1) && After([x] + s, n) == After(s, n - 1)
  {
    if |s| + 1 > n {
      assert ([x] + s)[..n] == [x] + s[..n - 1] && ([x] + s)[n..] == s[n - 1..];
    }
  }

  lemma LeftNone(c: Settings, rest: seq<Slot>, n: nat, now: int)
    requires rest == [] || n == 0
    ensures Left(c, rest, n, now) == rest
  {
    assert FirstOf(rest, n) == [];
  }

  lemma Regrouped(a: seq<Slot>, b: seq<Slot>, c: seq<Slot>)
    ensures (a + b) + c == a + (b + c)
  {
  }

  /** The slot itself, when the sweep keeps it. */
  function Keep(c: Settings, x: Slot, now: int): seq<Slot> { if Fresh(c, now)(x) then [x] else [] }

  lemma LeftOne(c: Settings, x: Slot, rest: seq<Slot>, n: nat, now: int)
    requires n > 0
    ensures Left(c, [x] + rest, n, now) == Keep(c, x, now) + Left(c, rest, n - 1, now)
  {
    FirstOfStep(x, rest, n);
    FilterCons(x, FirstOf(rest, n - 1), Fresh(c, now));
    assert Filter(FirstOf([x] + rest, n), Fresh(c, now)) == Keep(c, x, now) + Filter(FirstOf(rest, n - 1), Fresh(c, now));
    hide FirstOf, After, Filter, Fresh, Keep;
    Regrouped(Keep(c, x, now), Filter(FirstOf(rest, n - 1), Fresh(c, now)), After(rest, n - 1));
  }

  /** One turn of the sweep. */
  lemma SweptOne(c: Settings, kept: seq<Slot>, x: Slot, rest: seq<Slot>, checked: nat, now: int)
    requires |kept| + |rest| + 1 <= c.maxEntries && checked < 8
    ensures Swept(c, kept, [x] + rest, checked, now) == Swept(c, kept + Keep(c, x, now), rest, checked + 1, now)
    ensures |kept + Keep(c, x, now)| <= |kept| + 1
  {
    assert ([x] + rest)[1..] == rest && kept + [] == kept;
  }

  lemma SweptNone(c: Settings, kept: seq<Slot>, rest: seq<Slot>, checked: nat, now: int)
    requires |kept| + |rest| <= c.maxEntries && checked <= 8 && (rest == [] || checked == 8)
    ensures Swept(c, kept, rest, checked, now) == kept + Left(c, rest, 8 - checked, now)
  {
    LeftNone(c, rest, 8 - checked, now);
  }

  lemma {:induction false} SweptFrom(c: Settings, kept: seq<Slot>, rest: seq<Slot>, checked: nat, now: int)
    requires |kept| + |rest| <= c.maxEntries && checked <= 8
    ensures Swept(c, kept, rest, checked, now) == kept + Left(c, rest, 8 - checked, now)
    decreases rest
  {
    hide Swept, Left, Keep;
    if rest == [] || checked == 8 {
      SweptNone(c, kept, rest, checked, now);
    } else {
      var x, tail := rest[0], rest[1..];
      assert rest == [x] + tail;
      SweptOne(c, kept, x, tail, checked, now);
      LeftOne(c, x, tail, 8 - checked, now);
      SweptFrom(c, kept + Keep(c, x, now), tail, checked + 1, now);
      Regrouped(kept, Keep(c, x, now), Left(c, tail, 7 - checked, now));
    }
  }

  /** A sweep looks at the first eight slots and drops those that are stale; one slot too many drops the very first. */
  lemma SweptExactly(c: Settings, entries: seq<Slot>, now: int)
    requires |entries| <= c.maxEntries + 1
    ensures Swept(c, [], entries, 0, now) ==
            if |entries| <= c.maxEntries then Left(c, entries, 8, now) else Left(c, entries[1..], 7, now)
  {
    hide Left;
    if |entries| <= c.maxEntries {
      SweptFrom(c, [], entries, 0, now);
      assert [] + Left(c, entries, 8, now) == Left(c, entries, 8, now);
    } else {
      SweptFrom(c, [], entries[1..], 1, now);
      assert [] + Left(c, entries[1..], 7, now) == Left(c, entries[1..], 7, now);
    }
  }

  /** With the default settings: 5 seconds, doubling up to 5 minutes, forgotten 15 minutes after its end, 10,000 identities. */
  lemma DefaultsMean(n: nat)
    requires n > 0
    ensures CutOffUnseen(DEFAULTS) && DEFAULTS.resetMs == 900000 && DEFAULTS.maxEntries == 10000
    ensures BackoffAfter(DEFAULTS, n) ==
            if n >= 7 then 300000 else [5000, 10000, 20000, 40000, 80000, 160000][n - 1]
  {
    assert Pow2(6) == 64;
    if n >= 7 {
      hide Pow2;
      Pow2Monotone(6, n - 1);
      Scale(5000, 64, Pow2(n - 1));
    } else {
      assert Pow2(0) == 1 && Pow2(1) == 2 && Pow2(2) == 4 && Pow2(3) == 8 && Pow2(4) == 16 && Pow2(5) == 32;
    }
  }
}
