/** JavaScript strings as sequences of UTF-16 code units, their UTF-8 size, and fixed-size slices. */
module Text {
  import opened Lists

  type CodeUnit = x: int | 0 <= x < 0x1_0000
  type Text = seq<CodeUnit>

  predicate HighSurrogate(u: CodeUnit) { 0xD800 <= u < 0xDC00 }
  predicate LowSurrogate(u: CodeUnit) { 0xDC00 <= u < 0xE000 }

  /**
   * `new TextEncoder().encode(s).length`: a surrogate pair takes four bytes and a lone
   * surrogate is encoded as U+FFFD, three bytes.
   */
  function Utf8Length(s: Text): (n: nat)
    ensures |s| <= n <= 3 * |s|
  {
    if s == [] then 0
    else if s[0] < 0x80 then 1 + Utf8Length(s[1..])
    else if s[0] < 0x800 then 2 + Utf8Length(s[1..])
    else if |s| >= 2 && HighSurrogate(s[0]) && LowSurrogate(s[1]) then 4 + Utf8Length(s[2..])
    else 3 + Utf8Length(s[1..])
  }

  /** A Unicode code point, or a surrogate that stands alone. */
  type CodePoint = x: int | 0 <= x < 0x11_0000

  /** The code units of a code point: beyond U+FFFF a surrogate pair. */
  function Units(p: CodePoint): Text {
    if p < 0x1_0000 then [p] else [0xD800 + (p - 0x1_0000) / 0x400, 0xDC00 + (p - 0x1_0000) % 0x400]
  }

  function UnitsOf(points: seq<CodePoint>): Text {
    if points == [] then [] else Units(points[0]) + UnitsOf(points[1..])
  }

  /** The length of its UTF-8 encoding. */
  function PointBytes(p: CodePoint): nat { if p < 0x80 then 1 else if p < 0x800 then 2 else if p < 0x1_0000 then 3 else 4 }

  /** No two neighbours are surrogates that would read as a pair. */
  predicate NoPairs(points: seq<CodePoint>) {
    forall i :: 0 <= i < |points| - 1 ==> !(0xD800 <= points[i] < 0xDC00 <= points[i + 1] < 0xE000)
  }

  lemma FirstUnit(points: seq<CodePoint>)
    requires points != []
    ensures UnitsOf(points) != []
    ensures UnitsOf(points)[0] == if points[0] < 0x1_0000 then points[0] else 0xD800 + (points[0] - 0x1_0000) / 0x400
    ensures 0xDC00 <= UnitsOf(points)[0] < 0xE000 ==> UnitsOf(points)[0] == points[0]
  {
  }

  /** The size of a text is that of its code points, a lone surrogate counting three bytes. */
  lemma {:induction false} SizeOfPoints(points: seq<CodePoint>)
    requires NoPairs(points)
    ensures Utf8Length(UnitsOf(points)) == Sum(points, PointBytes)
  {
    if points != [] {
      var rest := UnitsOf(points[1..]);
      assert UnitsOf(points) == Units(points[0]) + rest;
      SizeOfPoints(points[1..]);
      if |points| > 1 {
        FirstUnit(points[1..]);
      }
      UnitsFirst(points[0], rest);
    }
  }

  lemma UnitsFirst(p: CodePoint, rest: Text)
    requires rest != [] ==> !(0xD800 <= p < 0xDC00 <= rest[0] < 0xE000)
    ensures Utf8Length(Units(p) + rest) == PointBytes(p) + Utf8Length(rest)
  {
    var all := Units(p) + rest;
    assert all[|Units(p)|..] == rest;
  }

  /** `Math.ceil(n / size)`. */
  function CeilDiv(n: nat, size: nat): (c: nat)
    requires size > 0
    ensures (c == 0 <==> n == 0)
    ensures n <= c * size < n + size
  {
    (n + size - 1) / size
  }

  /** `s.slice(i * size, (i + 1) * size)`. */
  function Slice<T>(s: seq<T>, size: nat, i: nat): (c: seq<T>)
    requires size > 0 && i < CeilDiv(|s|, size)
    ensures 0 < |c| <= size
  {
    SliceInside(|s|, size, i);
    var hi := if (i + 1) * size <= |s| then (i + 1) * size else |s|;
    s[i * size..hi]
  }

  lemma SliceInside(n: nat, size: nat, i: nat)
    requires size > 0 && i < CeilDiv(n, size)
    ensures i * size < n
    ensures (i + 1) * size == i * size + size
  {
  }

  /** The first `k` slices of `s`, as written one by one. */
  function Slices<T>(s: seq<T>, size: nat, k: nat): (r: seq<seq<T>>)
    requires size > 0 && k <= CeilDiv(|s|, size)
    ensures |r| == k
    ensures forall i :: 0 <= i < k ==> r[i] == Slice(s, size, i)
  {
    seq(k, i requires 0 <= i < k => Slice(s, size, i))
  }

  /** `chunks.join('')`. */
  function Join<T>(chunks: seq<seq<T>>): seq<T> {
    if chunks == [] then [] else Join(chunks[..|chunks| - 1]) + chunks[|chunks| - 1]
  }

  function Reach(n: nat, size: nat, k: nat): nat { if k * size <= n then k * size else n }

  lemma SliceStep<T>(s: seq<T>, size: nat, i: nat)
    requires size > 0 && i < CeilDiv(|s|, size)
    ensures s[..Reach(|s|, size, i)] + Slice(s, size, i) == s[..Reach(|s|, size, i + 1)]
  {
  }

  lemma {:induction false} JoinPrefix<T>(s: seq<T>, size: nat, k: nat)
    requires size > 0 && k <= CeilDiv(|s|, size)
    ensures Join(Slices(s, size, k)) == s[..Reach(|s|, size, k)]
  {
    if k > 0 {
      JoinPrefix(s, size, k - 1);
      SliceStep(s, size, k - 1);
      assert Slices(s, size, k)[..k - 1] == Slices(s, size, k - 1);
    }
  }

  /** Splitting a text into slices and joining them back yields the text. */
  lemma JoinSlices<T>(s: seq<T>, size: nat)
    requires size > 0
    ensures Join(Slices(s, size, CeilDiv(|s|, size))) == s
  {
    JoinPrefix(s, size, CeilDiv(|s|, size));
  }
}
