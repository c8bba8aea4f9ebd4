/** The array operations the relay uses: `filter`, `reduce` to a sum, and the stable `sort`. */
module Lists {

  datatype Option<+T> = None | Some(value: T)

  /** `s.filter(p)`. */
  function Filter<T(!new)>(s: seq<T>, p: T -> bool): (r: seq<T>)
    ensures |r| <= |s|
    ensures forall x :: x in r <==> x in s && p(x)
  {
    if s == [] then []
    else if p(s[0]) then [s[0]] + Filter(s[1..], p)
    else Filter(s[1..], p)
  }

  /** `s.reduce((sum, x) => sum + f(x), 0)`. */
  function Sum<T>(s: seq<T>, f: T -> nat): nat {
    if s == [] then 0 else f(s[0]) + Sum(s[1..], f)
  }

  function Map<T, U>(s: seq<T>, f: T -> U): (r: seq<U>)
    ensures |r| == |s|
    ensures forall i :: 0 <= i < |s| ==> r[i] == f(s[i])
  {
    seq(|s|, i requires 0 <= i < |s| => f(s[i]))
  }

  lemma {:induction false} FilterConcat<T(!new)>(a: seq<T>, b: seq<T>, p: T -> bool)
    ensures Filter(a + b, p) == Filter(a, p) + Filter(b, p)
  {
    if a == [] {
      assert a + b == b;
    } else {
      assert (a + b)[1..] == a[1..] + b;
      FilterConcat(a[1..], b, p);
    }
  }

  lemma {:induction false} SumConcat<T(!new)>(a: seq<T>, b: seq<T>, f: T -> nat)
    ensures Sum(a + b, f) == Sum(a, f) + Sum(b, f)
  {
    if a == [] {
      assert a + b == b;
    } else {
      assert (a + b)[1..] == a[1..] + b;
      SumConcat(a[1..], b, f);
    }
  }

  /** Filtering twice is filtering once by the conjunction. */
  lemma {:induction false} FilterTwice<T(!new)>(s: seq<T>, p: T -> bool, q: T -> bool, both: T -> bool)
    requires forall x :: x in s ==> both(x) == (p(x) && q(x))
    ensures Filter(Filter(s, p), q) == Filter(s, both)
  {
    if s != [] {
      FilterTwice(s[1..], p, q, both);
    }
  }

  lemma {:induction false} FilterAll<T(!new)>(s: seq<T>, p: T -> bool)
    requires forall x :: x in s ==> p(x)
    ensures Filter(s, p) == s
  {
    if s != [] {
      FilterAll(s[1..], p);
    }
  }

  lemma {:induction false} FilterNone<T(!new)>(s: seq<T>, p: T -> bool)
    requires forall x :: x in s ==> !p(x)
    ensures Filter(s, p) == []
  {
    if s != [] {
      FilterNone(s[1..], p);
    }
  }

  lemma {:induction false} FilterCongruent<T(!new)>(s: seq<T>, p: T -> bool, q: T -> bool)
    requires forall x :: x in s ==> p(x) == q(x)
    ensures Filter(s, p) == Filter(s, q)
  {
    if s != [] {
      FilterCongruent(s[1..], p, q);
    }
  }

  lemma FilterCons<T(!new)>(x: T, s: seq<T>, p: T -> bool)
    ensures Filter([x] + s, p) == (if p(x) then [x] else []) + Filter(s, p)
  {
  }

  lemma FilterAround<T(!new)>(head: seq<T>, x: T, tail: seq<T>, p: T -> bool)
    requires p(x)
    ensures Filter(head + [x] + tail, p) == Filter(head, p) + [x] + Filter(tail, p)
  {
    hide Filter;
    FilterConcat(head + [x], tail, p);
    FilterConcat(head, [x], p);
    FilterAll([x], p);
  }

  /** What a filter keeps and what it drops add up to the whole. */
  lemma {:induction false} SumSplit<T(!new)>(s: seq<T>, p: T -> bool, q: T -> bool, f: T -> nat)
    requires forall x :: x in s ==> q(x) == !p(x)
    ensures Sum(Filter(s, p), f) + Sum(Filter(s, q), f) == Sum(s, f)
    ensures |Filter(s, p)| + |Filter(s, q)| == |s|
  {
    if s != [] {
      SumSplit(s[1..], p, q, f);
    }
  }

  /** A filter by a stronger condition sums to no more. */
  lemma {:induction false} SumMonotone<T(!new)>(s: seq<T>, p: T -> bool, q: T -> bool, f: T -> nat)
    requires forall x :: x in s && p(x) ==> q(x)
    ensures Sum(Filter(s, p), f) <= Sum(Filter(s, q), f)
    ensures |Filter(s, p)| <= |Filter(s, q)|
  {
    if s != [] {
      SumMonotone(s[1..], p, q, f);
    }
  }

  lemma MapCons<T(!new), U(!new)>(x: T, s: seq<T>, f: T -> U)
    ensures Map([x] + s, f) == [f(x)] + Map(s, f)
  {
  }

  lemma FewerKeys<K, V>(less: map<K, V>, more: map<K, V>)
    requires less.Keys <= more.Keys
    ensures |less| <= |more|
  {
    assert more.Keys == less.Keys + (more.Keys - less.Keys);
    assert |more| == |more.Keys| && |less| == |less.Keys|;
  }

  predicate Distinct<T(==)>(s: seq<T>) {
    forall i, j :: 0 <= i < j < |s| ==> s[i] != s[j]
  }

  /** No two elements have the same key. */
  predicate UniqueBy<T, K(==)>(s: seq<T>, key: T -> K) {
    forall i, j :: 0 <= i < j < |s| ==> key(s[i]) != key(s[j])
  }

  lemma HeadDiffers<T, K>(s: seq<T>, key: T -> K)
    requires s != [] && UniqueBy(s, key)
    ensures UniqueBy(s[1..], key) && forall x :: x in s[1..] ==> key(x) != key(s[0])
  {
  }

  lemma ConsUnique<T, K>(x: T, s: seq<T>, key: T -> K)
    requires UniqueBy(s, key) && forall y :: y in s ==> key(y) != key(x)
    ensures UniqueBy([x] + s, key)
  {
  }

  lemma AppendUnique<T, K>(s: seq<T>, x: T, key: T -> K)
    requires UniqueBy(s, key) && forall y :: y in s ==> key(y) != key(x)
    ensures UniqueBy(s + [x], key)
  {
  }

  lemma {:induction false} FilterUnique<T(!new), K(!new)>(s: seq<T>, p: T -> bool, key: T -> K)
    requires UniqueBy(s, key)
    ensures UniqueBy(Filter(s, p), key)
  {
    if s != [] {
      HeadDiffers(s, key);
      hide UniqueBy;
      FilterUnique(s[1..], p, key);
      ConsUnique(s[0], Filter(s[1..], p), key);
    }
  }

  // ---- the stable sort ----

  /** A comparator's `<= 0`, on the elements of `s`: total and transitive. */
  ghost predicate Ordering<T>(s: seq<T>, le: (T, T) -> bool) {
    && (forall a, b :: a in s && b in s ==> le(a, b) || le(b, a))
    && (forall a, b, c :: a in s && b in s && c in s && le(a, b) && le(b, c) ==> le(a, c))
  }

  ghost predicate Sorted<T>(s: seq<T>, le: (T, T) -> bool) {
    forall i, j :: 0 <= i < j < |s| ==> le(s[i], s[j])
  }

  function Insert<T(!new)>(x: T, s: seq<T>, le: (T, T) -> bool): (r: seq<T>)
    ensures |r| == |s| + 1
    ensures forall y :: y in r <==> y == x || y in s
    ensures multiset(r) == multiset(s) + multiset{x}
  {
    if s == [] || le(x, s[0]) then
      assert [x] + s == [x] + s[..];
      [x] + s
    else
      assert s == [s[0]] + s[1..];
      [s[0]] + Insert(x, s[1..], le)
  }

  /** `s.sort(...)`: an element is placed before its equals that stood later. */
  function Sort<T(!new)>(s: seq<T>, le: (T, T) -> bool): (r: seq<T>)
    ensures |r| == |s|
    ensures forall y :: y in r <==> y in s
    ensures multiset(r) == multiset(s)
  {
    if s == [] then [] else
      assert s == [s[0]] + s[1..];
      Insert(s[0], Sort(s[1..], le), le)
  }

  lemma ConsSorted<T(!new)>(x: T, s: seq<T>, le: (T, T) -> bool)
    requires Sorted(s, le) && forall y :: y in s ==> le(x, y)
    ensures Sorted([x] + s, le)
  {
  }

  lemma HeadLeast<T(!new)>(x: T, s: seq<T>, le: (T, T) -> bool)
    requires s != [] && Sorted(s, le) && Ordering([x] + s, le) && le(x, s[0])
    ensures forall y :: y in s ==> le(x, y)
  {
    assert x in [x] + s && s[0] in [x] + s;
    forall y | y in s ensures le(x, y) {
      var i :| 0 <= i < |s| && s[i] == y;
      assert y in [x] + s && (i > 0 ==> le(s[0], s[i]));
    }
  }

  lemma TailSorted<T(!new)>(s: seq<T>, le: (T, T) -> bool)
    requires s != [] && Sorted(s, le)
    ensures Sorted(s[1..], le) && forall y :: y in s[1..] ==> le(s[0], y)
  {
  }

  lemma {:induction false} InsertSorted<T(!new)>(x: T, s: seq<T>, le: (T, T) -> bool)
    requires Sorted(s, le) && Ordering([x] + s, le)
    ensures Sorted(Insert(x, s, le), le)
  {
    if s == [] {
    } else if le(x, s[0]) {
      HeadLeast(x, s, le);
      ConsSorted(x, s, le);
    } else {
      TailSorted(s, le);
      SubOrdering([x] + s, [x] + s[1..], le);
      assert x in [x] + s && s[0] in [x] + s && le(s[0], x);
      hide Sorted, Ordering;
      InsertSorted(x, s[1..], le);
      ConsSorted(s[0], Insert(x, s[1..], le), le);
    }
  }

  lemma SubOrdering<T(!new)>(s: seq<T>, less: seq<T>, le: (T, T) -> bool)
    requires Ordering(s, le) && forall x :: x in less ==> x in s
    ensures Ordering(less, le)
  {
  }

  lemma {:induction false} SortSorted<T(!new)>(s: seq<T>, le: (T, T) -> bool)
    requires Ordering(s, le)
    ensures Sorted(Sort(s, le), le)
  {
    if s != [] {
      SortSorted(s[1..], le);
      var t := Sort(s[1..], le);
      assert forall y :: y in [s[0]] + t ==> y in s;
      InsertSorted(s[0], t, le);
    }
  }

  /** Somewhere in `s`, `a` stands before `b`. */
  ghost predicate Precedes<T>(s: seq<T>, a: T, b: T) {
    exists i, j :: 0 <= i < j < |s| && s[i] == a && s[j] == b
  }

  /** `t` is in order, and those of its elements that tie stand as they do in `s`. */
  ghost predicate SortedStably<T>(t: seq<T>, s: seq<T>, le: (T, T) -> bool) {
    forall i, j :: 0 <= i < j < |t| ==> le(t[i], t[j]) && (le(t[j], t[i]) ==> Precedes(s, t[i], t[j]))
  }

  lemma PrecedesLater<T>(x: T, s: seq<T>, a: T, b: T)
    requires Precedes(s, a, b)
    ensures Precedes([x] + s, a, b)
  {
    var i, j :| 0 <= i < j < |s| && s[i] == a && s[j] == b;
    assert ([x] + s)[i + 1] == a && ([x] + s)[j + 1] == b;
  }

  lemma PrecedesFirst<T>(x: T, s: seq<T>, b: T)
    requires b in s
    ensures Precedes([x] + s, x, b)
  {
    var j :| 0 <= j < |s| && s[j] == b;
    assert ([x] + s)[0] == x && ([x] + s)[j + 1] == b;
  }

  lemma ConsStable<T(!new)>(x: T, t: seq<T>, s: seq<T>, le: (T, T) -> bool)
    requires SortedStably(t, s, le)
    requires forall y :: y in t ==> le(x, y) && (le(y, x) ==> Precedes(s, x, y))
    ensures SortedStably([x] + t, s, le)
  {
    hide Precedes;
  }

  lemma StableLater<T(!new)>(x: T, t: seq<T>, s: seq<T>, le: (T, T) -> bool)
    requires SortedStably(t, s, le)
    ensures SortedStably(t, [x] + s, le)
  {
    forall i, j | 0 <= i < j < |t| && le(t[j], t[i]) ensures Precedes([x] + s, t[i], t[j]) {
      PrecedesLater(x, s, t[i], t[j]);
    }
  }

  lemma TailStable<T(!new)>(t: seq<T>, s: seq<T>, le: (T, T) -> bool)
    requires t != [] && SortedStably(t, s, le)
    ensures SortedStably(t[1..], s, le) && Sorted(t, le)
    ensures forall y :: y in t[1..] ==> le(t[0], y) && (le(y, t[0]) ==> Precedes(s, t[0], y))
  {
    hide Precedes;
  }

  lemma {:induction false} InsertStable<T(!new)>(x: T, t: seq<T>, s: seq<T>, le: (T, T) -> bool)
    requires SortedStably(t, s, le) && Ordering([x] + t, le) && forall y :: y in t ==> y in s
    ensures SortedStably(Insert(x, t, le), [x] + s, le)
  {
    StableLater(x, t, s, le);
    assert x in [x] + t && forall y :: y in t ==> y in [x] + t;
    if t != [] && le(x, t[0]) {
      TailStable(t, s, le);
      HeadLeast(x, t, le);
      forall y | y in t ensures Precedes([x] + s, x, y) {
        PrecedesFirst(x, s, y);
      }
      hide Precedes, SortedStably, Ordering, Sorted;
      ConsStable(x, t, [x] + s, le);
    } else if t != [] {
      TailStable(t, [x] + s, le);
      TailStable(t, s, le);
      SubOrdering([x] + t, [x] + t[1..], le);
      assert le(t[0], x);
      hide Precedes, SortedStably, Ordering, Sorted;
      InsertStable(x, t[1..], s, le);
      ConsStable(t[0], Insert(x, t[1..], le), [x] + s, le);
    }
  }

  /** The sort is stable: equals keep the order they came in. */
  lemma {:induction false} SortStable<T(!new)>(s: seq<T>, le: (T, T) -> bool)
    requires Ordering(s, le)
    ensures SortedStably(Sort(s, le), s, le)
  {
    if s != [] {
      SubOrdering(s, s[1..], le);
      SortStable(s[1..], le);
      var t := Sort(s[1..], le);
      assert s == [s[0]] + s[1..];
      SubOrdering(s, [s[0]] + t, le);
      hide Sorted, Ordering, SortedStably;
      InsertStable(s[0], t, s[1..], le);
    }
  }
}
