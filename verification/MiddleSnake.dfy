/**
 * `gix-imara-diff/src/myers/middle_snake.rs` and the split of `myers.rs`: two searches, from the start of two files
 * and from their end, follow the furthest reaching paths until they meet. Wherever the search ends, at the meeting
 * point or at what its heuristics settle for, it divides the files into two parts that are both smaller; and the
 * meeting point is on a shortest path between the files.
 */
module MiddleSnake {
  import opened DiffMarks
  import opened EditDistance
  import opened FurthestPaths
  import opened ShortestPaths
  import opened Wrappers

  // -------------------------------------------------------------------------------------------------
  // The vector of a search. The search from the end works on the mirrored files and counts from their start, but
  // its vector holds places and diagonals of the files themselves. Diagonal `k` has index `k + m + 1`.
  // -------------------------------------------------------------------------------------------------

  const I32_MAX: int := 0x7fff_ffff
  const I32_MIN: int := -0x8000_0000

  function Diagonal(n: nat, m: nat, back: bool, d: nat, i: int): int {
    if back then n - m - (2 * i - d) else 2 * i - d
  }

  function Value(n: nat, back: bool, x: int): int {
    if back then n - x else x
  }

  function Sentinel(back: bool): int {
    if back then I32_MAX else I32_MIN
  }

  function Seen(n: nat, m: nat, back: bool, r: Reach, d: nat, i: int): int {
    if InRange(n, m, d, i) then Value(n, back, r(d, i)) else Sentinel(back)
  }

  predicate HoldsAt(v: seq<int>, n: nat, m: nat, back: bool, r: Reach, d: nat, i: int)
    requires |v| == n + m + 3
  {
    InRange(n, m, d, i) ==> v[Diagonal(n, m, back, d, i) + m + 1] == Value(n, back, r(d, i))
  }

  /** The vector holds what paths with `d` edits reach. */
  ghost predicate Holds(v: seq<int>, n: nat, m: nat, back: bool, r: Reach, d: nat) {
    |v| == n + m + 3 && forall i :: HoldsAt(v, n, m, back, r, d, i)
  }

  predicate ReadyAt(v: seq<int>, n: nat, m: nat, back: bool, r: Reach, d: nat, i: int)
    requires |v| == n + m + 3
  {
    InRange(n, m, d + 1, i) ==>
      && v[Diagonal(n, m, back, d, i - 1) + m + 1] == Seen(n, m, back, r, d, i - 1)
      && v[Diagonal(n, m, back, d, i) + m + 1] == Seen(n, m, back, r, d, i)
  }

  /** Next to all diagonals of paths with one more edit, it holds what paths with `d` edits reach, or that none do. */
  ghost predicate Ready(v: seq<int>, n: nat, m: nat, back: bool, r: Reach, d: nat) {
    |v| == n + m + 3 && forall i :: ReadyAt(v, n, m, back, r, d, i)
  }

  /** The paths with `d` edits are those with `lo` up to `hi` removals. */
  predicate Bounds(n: nat, m: nat, d: nat, lo: int, hi: int) {
    InRange(n, m, d, lo) && InRange(n, m, d, hi) && !InRange(n, m, d, lo - 1) && !InRange(n, m, d, hi + 1)
  }

  lemma BoundsAre(n: nat, m: nat, d: nat, lo: int, hi: int, i: int)
    requires Bounds(n, m, d, lo, hi)
    ensures InRange(n, m, d, i) <==> lo <= i <= hi
  {
  }

  /** How the bounds change with one more edit. */
  function NextLow(m: nat, d: nat, lo: int): int {
    if 2 * lo - d + m > 0 then lo else lo + 1
  }

  function NextHigh(n: nat, d: nat, hi: int): int {
    if 2 * hi - d < n then hi + 1 else hi
  }

  lemma BoundsNext(n: nat, m: nat, d: nat, lo: int, hi: int)
    requires n > 0 && m > 0 && Bounds(n, m, d, lo, hi)
    ensures Bounds(n, m, d + 1, NextLow(m, d, lo), NextHigh(n, d, hi))
  {
  }

  /** The second vector is the first one, with sentinels next to the diagonals that are new. */
  predicate Extended(v: seq<int>, w: seq<int>, n: nat, m: nat, back: bool, d: nat, lo: int, hi: int, lo': int, hi': int)
    requires n > 0 && m > 0 && |v| == n + m + 3 && Bounds(n, m, d, lo, hi) && Bounds(n, m, d + 1, lo', hi')
  {
    && |w| == |v|
    && (lo' == lo ==> w[Diagonal(n, m, back, d, lo - 1) + m + 1] == Sentinel(back))
    && (hi' == hi + 1 ==> w[Diagonal(n, m, back, d, hi + 1) + m + 1] == Sentinel(back))
    && forall i :: lo <= i <= hi ==> w[Diagonal(n, m, back, d, i) + m + 1] == v[Diagonal(n, m, back, d, i) + m + 1]
  }

  lemma ExtendedIsReady(v: seq<int>, w: seq<int>, n: nat, m: nat, back: bool, r: Reach, d: nat,
                        lo: int, hi: int, lo': int, hi': int, i: int)
    requires n > 0 && m > 0 && |v| == n + m + 3 && Bounds(n, m, d, lo, hi) && Bounds(n, m, d + 1, lo', hi')
    requires Extended(v, w, n, m, back, d, lo, hi, lo', hi')
    requires HoldsAt(v, n, m, back, r, d, i - 1) && HoldsAt(v, n, m, back, r, d, i)
    ensures ReadyAt(w, n, m, back, r, d, i)
  {
    BoundsAre(n, m, d, lo, hi, i - 1);
    BoundsAre(n, m, d, lo, hi, i);
  }

  /** A vector with a sentinel on diagonal `k` if there is a reason for it. */
  function Marked(v: seq<int>, m: nat, back: bool, k: int, reason: bool): (w: seq<int>)
    requires reason ==> 0 <= k + m + 1 < |v|
    ensures |w| == |v|
  {
    if reason then v[k + m + 1 := Sentinel(back)] else v
  }

  lemma MarkedIsExtended(v: seq<int>, n: nat, m: nat, back: bool, d: nat, lo: int, hi: int, low: int, high: int)
    requires n > 0 && m > 0 && |v| == n + m + 3 && Bounds(n, m, d, lo, hi)
    requires low == Diagonal(n, m, back, d, if back then hi else lo)
          && high == Diagonal(n, m, back, d, if back then lo else hi)
    ensures Bounds(n, m, d + 1, NextLow(m, d, lo), NextHigh(n, d, hi))
    ensures var w := Marked(Marked(v, m, back, low - 2, low + m > 0), m, back, high + 2, high < n);
            Extended(v, w, n, m, back, d, lo, hi, NextLow(m, d, lo), NextHigh(n, d, hi))
    ensures var lo', hi' := NextLow(m, d, lo), NextHigh(n, d, hi);
            && Diagonal(n, m, back, d + 1, if back then hi' else lo') == (if low + m > 0 then low - 1 else low + 1)
            && Diagonal(n, m, back, d + 1, if back then lo' else hi') == (if high < n then high + 1 else high - 1)
  {
    BoundsNext(n, m, d, lo, hi);
  }

  lemma ExtendedToReady(v: seq<int>, w: seq<int>, n: nat, m: nat, back: bool, r: Reach, d: nat,
                        lo: int, hi: int, lo': int, hi': int)
    requires n > 0 && m > 0 && Holds(v, n, m, back, r, d) && Bounds(n, m, d, lo, hi) && Bounds(n, m, d + 1, lo', hi')
    requires Extended(v, w, n, m, back, d, lo, hi, lo', hi')
    ensures Ready(w, n, m, back, r, d)
  {
    forall i
      ensures ReadyAt(w, n, m, back, r, d, i)
    {
      assert HoldsAt(v, n, m, back, r, d, i - 1) && HoldsAt(v, n, m, back, r, d, i);
      ExtendedIsReady(v, w, n, m, back, r, d, lo, hi, lo', hi', i);
    }
  }

  /** Where the bounds of the diagonals go, and that the vector is ready then. */
  lemma MarkedIsReady(v: seq<int>, w: seq<int>, n: nat, m: nat, back: bool, r: Reach, d: nat,
                      lo: int, hi: int, low: int, high: int)
    requires n > 0 && m > 0 && Holds(v, n, m, back, r, d) && Bounds(n, m, d, lo, hi)
    requires low == Diagonal(n, m, back, d, if back then hi else lo)
          && high == Diagonal(n, m, back, d, if back then lo else hi)
    requires w == Marked(Marked(v, m, back, low - 2, low + m > 0), m, back, high + 2, high < n)
    ensures Ready(w, n, m, back, r, d)
    ensures var lo', hi' := NextLow(m, d, lo), NextHigh(n, d, hi);
            && Bounds(n, m, d + 1, lo', hi')
            && Diagonal(n, m, back, d + 1, if back then hi' else lo') == (if low + m > 0 then low - 1 else low + 1)
            && Diagonal(n, m, back, d + 1, if back then lo' else hi') == (if high < n then high + 1 else high - 1)
  {
    MarkedIsExtended(v, n, m, back, d, lo, hi, low, high);
    ExtendedToReady(v, w, n, m, back, r, d, lo, hi, NextLow(m, d, lo), NextHigh(n, d, hi));
  }

  /** The choice between the two neighbours of a diagonal. */
  function Choose(back: bool, below: int, above: int): int {
    if back then if below < above then below else above - 1
    else if below >= above then below + 1 else above
  }

  lemma ChooseIsStart(a: seq<Token>, b: seq<Token>, back: bool, r: Reach, d: nat, i: int)
    requires Furthest(a, b, r) && |a| < I32_MAX && InRange(|a|, |b|, d + 1, i)
    ensures var u, v := Seen(|a|, |b|, back, r, d, i - 1), Seen(|a|, |b|, back, r, d, i);
            (if back then Choose(back, v, u) else Choose(back, u, v)) == Value(|a|, back, Start(|a|, |b|, r, d + 1, i))
  {
    if InRange(|a|, |b|, d, i - 1) { ReachLow(a, b, r, d, i - 1); }
    if InRange(|a|, |b|, d, i) { ReachLow(a, b, r, d, i); }
  }

  // -------------------------------------------------------------------------------------------------
  // Snakes.
  // -------------------------------------------------------------------------------------------------

  /** As many equal tokens as there are make up the snake. */
  lemma {:induction false} SnakeIs(a: seq<Token>, b: seq<Token>, x: nat, y: nat, off: nat)
    requires SameTokens(a, x, b, y, off)
    requires x + off < |a| && y + off < |b| ==> a[x + off] != b[y + off]
    ensures SnakeLength(a, b, x, y) == off
    decreases off
  {
    if off > 0 {
      assert a[x] == b[y];
      SnakeIs(a, b, x + 1, y + 1, off - 1);
    }
  }

  lemma SnakeMirrored(a: seq<Token>, b: seq<Token>, x: nat, y: nat, off: nat)
    requires off <= x <= |a| && off <= y <= |b| && SameTokens(a, x - off, b, y - off, off)
    requires off < x && off < y ==> a[x - off - 1] != b[y - off - 1]
    ensures SnakeLength(Mirror(a), Mirror(b), |a| - x, |b| - y) == off
  {
    var p, q := Mirror(a), Mirror(b);
    forall i | |a| - x <= i < |a| - x + off
      ensures p[i] == q[i - (|a| - x) + (|b| - y)]
    {
      assert a[|a| - 1 - i] == b[(|a| - 1 - i) - (x - off) + (y - off)];
    }
    SnakeIs(p, q, |a| - x, |b| - y, off);
  }

  /** The files as a search reads them from its own end. */
  function Read(s: seq<Token>, back: bool): (t: seq<Token>)
    ensures |t| == |s|
  {
    if back then Mirror(s) else s
  }

  method Follow(a: seq<Token>, b: seq<Token>, back: bool, x: int, y: int) returns (off: nat)
    requires if back then x <= |a| && y <= |b| else x >= 0 && y >= 0
    ensures off == SnakeLength(Read(a, back), Read(b, back), Value(|a|, back, x), Value(|b|, back, y))
  {
    off := 0;
    if back {
      if x > 0 && y > 0 {
        off := CommonPostfix(a, 0, x, b, 0, y);
        SnakeMirrored(a, b, x, y, off);
      }
    } else if x < |a| && y < |b| {
      off := CommonPrefix(a, x, |a|, b, y, |b|);
      SnakeIs(a, b, x, y, off);
    }
  }

  // -------------------------------------------------------------------------------------------------
  // One round of a search.
  // -------------------------------------------------------------------------------------------------

  /** The search comes to `q` before it comes to `i`. */
  predicate Before(back: bool, q: int, i: int) {
    if back then q < i else q > i
  }

  predicate UpdatedAt(v: seq<int>, n: nat, m: nat, back: bool, r: Reach, d: nat, i: int, q: int)
    requires |v| == n + m + 3
  {
    if Before(back, q, i) then HoldsAt(v, n, m, back, r, d + 1, q) else ReadyAt(v, n, m, back, r, d, q)
  }

  /** In front of `i` the vector holds what paths with one more edit reach, from there on it is ready for them. */
  ghost predicate Updated(v: seq<int>, n: nat, m: nat, back: bool, r: Reach, d: nat, i: int) {
    |v| == n + m + 3 && forall q :: UpdatedAt(v, n, m, back, r, d, i, q)
  }

  function Next(back: bool, i: int): int {
    if back then i + 1 else i - 1
  }

  /** Behind the last diagonal. */
  function Past(back: bool, lo: int, hi: int): int {
    if back then hi + 1 else lo - 1
  }

  /** The search is at diagonal `k`, that of `i`, or past the lowest one. */
  predicate AtTurn(n: nat, m: nat, back: bool, d: nat, lo: int, hi: int, low: int, k: int, i: int) {
    && k == Diagonal(n, m, back, d, i) && low == Diagonal(n, m, back, d, if back then hi else lo)
    && (if k >= low then lo <= i <= hi else i == Past(back, lo, hi))
  }

  lemma AtNextTurn(n: nat, m: nat, back: bool, d: nat, lo: int, hi: int, low: int, k: int, i: int)
    requires AtTurn(n, m, back, d, lo, hi, low, k, i) && k >= low
    ensures AtTurn(n, m, back, d, lo, hi, low, k - 2, Next(back, i))
  {
  }

  lemma UpdateAt(v: seq<int>, w: seq<int>, n: nat, m: nat, back: bool, r: Reach, d: nat, i: int, i': int, q: int)
    requires |v| == n + m + 3 && InRange(n, m, d + 1, i) && i' == Next(back, i) && UpdatedAt(v, n, m, back, r, d, i, q)
    requires w == v[Diagonal(n, m, back, d + 1, i) + m + 1 := Value(n, back, r(d + 1, i))]
    ensures UpdatedAt(w, n, m, back, r, d, i', q)
  {
  }

  lemma Update(v: seq<int>, w: seq<int>, n: nat, m: nat, back: bool, r: Reach, d: nat, i: int, i': int)
    requires Updated(v, n, m, back, r, d, i) && InRange(n, m, d + 1, i) && i' == Next(back, i)
    requires w == v[Diagonal(n, m, back, d + 1, i) + m + 1 := Value(n, back, r(d + 1, i))]
    ensures Updated(w, n, m, back, r, d, i')
  {
    forall q
      ensures UpdatedAt(w, n, m, back, r, d, i', q)
    {
      assert UpdatedAt(v, n, m, back, r, d, i, q);
      UpdateAt(v, w, n, m, back, r, d, i, i', q);
    }
  }

  lemma UpdatedAtFirst(v: seq<int>, n: nat, m: nat, back: bool, r: Reach, d: nat, lo: int, hi: int, i: int)
    requires Ready(v, n, m, back, r, d) && Bounds(n, m, d + 1, lo, hi) && i == if back then lo else hi
    ensures Updated(v, n, m, back, r, d, i)
  {
    forall q
      ensures UpdatedAt(v, n, m, back, r, d, i, q)
    {
      assert ReadyAt(v, n, m, back, r, d, q);
      BoundsAre(n, m, d + 1, lo, hi, q);
    }
  }

  lemma UpdatedAtLast(v: seq<int>, n: nat, m: nat, back: bool, r: Reach, d: nat, d': nat, lo: int, hi: int, i: int)
    requires Updated(v, n, m, back, r, d, i) && d' == d + 1 && Bounds(n, m, d', lo, hi)
    requires if back then i > hi else i < lo
    ensures Holds(v, n, m, back, r, d')
  {
    forall q
      ensures HoldsAt(v, n, m, back, r, d', q)
    {
      assert UpdatedAt(v, n, m, back, r, d, i, q);
      BoundsAre(n, m, d', lo, hi, q);
    }
  }

  /** Paths in front of `i` have not met those from the other end. */
  ghost predicate ApartBefore(n: nat, m: nat, back: bool, r: Reach, d: nat, s: Reach, e: nat, i: int) {
    forall q, j :: Before(back, q, i) ==> ApartOn(n, m, r, d, q, s, e, j)
  }

  /** The test for a meeting, on the vector of the other search. */
  lemma MetIs(v: seq<int>, n: nat, m: nat, back: bool, r: Reach, d: nat, i: int, s: Reach, e: nat, lo: int, hi: int,
              half: int)
    requires Holds(v, n, m, !back, s, e) && Bounds(n, m, e, lo, hi) && Turns(n, m, d, e, half) && InRange(n, m, d, i)
    ensures var k, x := Diagonal(n, m, back, d, i), Value(n, back, r(d, i));
            && 0 <= k + m + 1 < |v|
            && (lo <= half - i <= hi <==> Facing(n, m, d, i, e, half - i))
            && (Facing(n, m, d, i, e, half - i) && (if back then x <= v[k + m + 1] else v[k + m + 1] <= x)
                <==> Facing(n, m, d, i, e, half - i) && r(d, i) + s(e, half - i) >= n)
  {
    BoundsAre(n, m, e, lo, hi, half - i);
    assert HoldsAt(v, n, m, !back, s, e, half - i);
  }

  /** A path faces only one other. */
  lemma ApartNext(n: nat, m: nat, back: bool, r: Reach, d: nat, s: Reach, e: nat, i: int, half: int)
    requires ApartBefore(n, m, back, r, d, s, e, i) && Turns(n, m, d, e, half) && ApartOn(n, m, r, d, i, s, e, half - i)
    ensures ApartBefore(n, m, back, r, d, s, e, Next(back, i))
  {
    forall q, j | Before(back, q, Next(back, i))
      ensures ApartOn(n, m, r, d, q, s, e, j)
    {
      if Before(back, q, i) { assert ApartOn(n, m, r, d, q, s, e, j); }
    }
  }

  lemma ApartAtFirst(n: nat, m: nat, back: bool, r: Reach, d: nat, s: Reach, e: nat, lo: int, hi: int, i: int)
    requires Bounds(n, m, d, lo, hi) && i == if back then lo else hi
    ensures ApartBefore(n, m, back, r, d, s, e, i)
  {
    forall q, j | Before(back, q, i)
      ensures ApartOn(n, m, r, d, q, s, e, j)
    {
      BoundsAre(n, m, d, lo, hi, q);
    }
  }

  lemma ApartAtLast(n: nat, m: nat, back: bool, r: Reach, d: nat, s: Reach, e: nat, lo: int, hi: int, i: int)
    requires ApartBefore(n, m, back, r, d, s, e, i) && Bounds(n, m, d, lo, hi) && if back then i > hi else i < lo
    ensures Apart(n, m, r, d, s, e)
  {
    forall q, j
      ensures ApartOn(n, m, r, d, q, s, e, j)
    {
      BoundsAre(n, m, d, lo, hi, q);
      if Before(back, q, i) { assert ApartOn(n, m, r, d, q, s, e, j); }
    }
  }

  /** What is known when a search with `d` edits is to make one more on the diagonal of `i`. */
  ghost predicate Turned(v: seq<int>, n: nat, m: nat, back: bool, r: Reach, d: nat, s: Reach, e: nat, i: int,
                         check: bool) {
    Updated(v, n, m, back, r, d, i) && (check ==> ApartBefore(n, m, back, r, d + 1, s, e, i))
  }

  lemma TurnedAtFirst(v: seq<int>, n: nat, m: nat, back: bool, r: Reach, d: nat, d': nat, s: Reach, e: nat,
                      lo: int, hi: int, i: int, check: bool)
    requires Ready(v, n, m, back, r, d) && d' == d + 1 && Bounds(n, m, d', lo, hi) && i == if back then lo else hi
    ensures Turned(v, n, m, back, r, d, s, e, i, check)
  {
    UpdatedAtFirst(v, n, m, back, r, d, lo, hi, i);
    ApartAtFirst(n, m, back, r, d', s, e, lo, hi, i);
  }

  lemma TurnedAtLast(v: seq<int>, n: nat, m: nat, back: bool, r: Reach, d: nat, d': nat, s: Reach, e: nat,
                     lo: int, hi: int, i: int, check: bool)
    requires Turned(v, n, m, back, r, d, s, e, i, check) && d' == d + 1 && Bounds(n, m, d', lo, hi)
    requires i == Past(back, lo, hi)
    ensures Holds(v, n, m, back, r, d') && (check ==> Apart(n, m, r, d', s, e))
  {
    UpdatedAtLast(v, n, m, back, r, d, d', lo, hi, i);
    if check { ApartAtLast(n, m, back, r, d', s, e, lo, hi, i); }
  }

  /** No common tokens at the ends. */
  predicate Bare(a: seq<Token>, b: seq<Token>) {
    a != [] && b != [] && a[0] != b[0] && a[|a| - 1] != b[|b| - 1]
  }

  /** A place that divides the box and is on a shortest path. */
  predicate Middle(a: seq<Token>, b: seq<Token>, x: int, y: int) {
    Divides(|a|, |b|, x, y) && OnShortest(a, b, x, y)
  }

  /** The place where the searches meet first is in the middle. */
  lemma MeetingIsMiddle(a: seq<Token>, b: seq<Token>, back: bool, r: Reach, d: nat, i: int, s: Reach, e: nat, half: int)
    requires Bare(a, b) && Both(Read(a, back), Read(b, back), r, s) && Turns(|a|, |b|, d, e, half)
    requires Facing(|a|, |b|, d, i, e, half - i) && r(d, i) + s(e, half - i) >= |a|
    requires e > 0 ==> Apart(|a|, |b|, r, d - 1, s, e - 1)
    ensures var x := Value(|a|, back, r(d, i)); Middle(a, b, x, x - Diagonal(|a|, |b|, back, d, i))
  {
    ReachDivides(Read(a, back), Read(b, back), r, d, i, s, e, half - i);
    MeetingIsShortest(Read(a, back), Read(b, back), r, d, i, s, e, half - i, half);
    if back { OnShortestMirrored(a, b, r(d, i), r(d, i) - (2 * i - d)); }
  }

  /** No path is in the far corner. */
  predicate CornerFreeAt(n: nat, m: nat, r: Reach, d: nat, i: int) {
    InRange(n, m, d, i) && 2 * i - d == n - m ==> r(d, i) < n
  }

  ghost predicate CornerFree(n: nat, m: nat, r: Reach, d: nat) {
    forall i :: CornerFreeAt(n, m, r, d, i)
  }

  /** Searches that were compared have not reached the far corner. */
  lemma ApartCornerFree(a: seq<Token>, b: seq<Token>, r: Reach, d: nat, s: Reach, e: nat, half: int)
    requires Both(a, b, r, s) && Turns(|a|, |b|, d, e, half) && Apart(|a|, |b|, r, d, s, e)
    ensures CornerFree(|a|, |b|, r, d)
  {
    forall i
      ensures CornerFreeAt(|a|, |b|, r, d, i)
    {
      if InRange(|a|, |b|, d, i) && 2 * i - d == |a| - |b| {
        assert ApartOn(|a|, |b|, r, d, i, s, e, half - i);
        Inside(a, b, r, d, i, s, e, half - i);
      }
    }
  }

  /** Nor has the search that takes its turn afterwards. */
  lemma LaterCornerFree(a: seq<Token>, b: seq<Token>, r: Reach, d: nat, s: Reach, half: int)
    requires Both(a, b, r, s) && a[|a| - 1] != b[|b| - 1] && d > 0 && Turns(|a|, |b|, d, d - 1, half)
    requires Apart(|a|, |b|, r, d - 1, s, d)
    ensures CornerFree(|a|, |b|, r, d)
  {
    forall i
      ensures CornerFreeAt(|a|, |b|, r, d, i)
    {
      if InRange(|a|, |b|, d, i) && 2 * i - d == |a| - |b| {
        assert d == 2 * (half - i) + 1;
        MissesCorner(a, b, r, d, i, s, d, half - i);
      }
    }
  }

  /** A place and its diagonal, moved back to the box. */
  function Clamped(n: nat, m: nat, back: bool, x: int, k: int): (int, int) {
    if back then
      var x' := if x > 0 then x else 0;
      if x' - k < 0 then (k, 0) else (x', x' - k)
    else
      var x' := if x < n then x else n;
      if x' - k > m then (m + k, m) else (x', x' - k)
  }

  lemma ClampedDivides(a: seq<Token>, b: seq<Token>, back: bool, r: Reach, d: nat, i: int)
    requires Furthest(a, b, r) && d > 0 && InRange(|a|, |b|, d, i) && CornerFreeAt(|a|, |b|, r, d, i)
    ensures var p := Clamped(|a|, |b|, back, Value(|a|, back, r(d, i)), Diagonal(|a|, |b|, back, d, i));
            Divides(|a|, |b|, p.0, p.1)
  {
    ReachLow(a, b, r, d, i);
  }

  lemma HeldDivides(v: seq<int>, a: seq<Token>, b: seq<Token>, back: bool, r: Reach, d: nat, i: int, k: int)
    requires Furthest(a, b, r) && d > 0 && InRange(|a|, |b|, d, i) && k == Diagonal(|a|, |b|, back, d, i)
    requires Holds(v, |a|, |b|, back, r, d) && CornerFree(|a|, |b|, r, d)
    ensures var p := Clamped(|a|, |b|, back, v[k + |b| + 1], k);
            Divides(|a|, |b|, p.0, p.1) && IsAt(v, |a|, |b|, back, d, i, p.0, p.1)
  {
    assert HoldsAt(v, |a|, |b|, back, r, d, i) && CornerFreeAt(|a|, |b|, r, d, i);
    ClampedDivides(a, b, back, r, d, i);
  }

  /** `count` tokens from `x` and `y` on are equal. */
  method AllEqual(a: seq<Token>, x: nat, b: seq<Token>, y: nat, count: nat) returns (equal: bool)
    requires x + count <= |a| && y + count <= |b|
    ensures equal <==> SameTokens(a, x, b, y, count)
  {
    for i := 0 to count
      invariant SameTokens(a, x, b, y, i)
    {
      if a[x + i] != b[y + i] { return false; }
    }
    equal := true;
  }

  function Min(x: int, y: int): int {
    if x < y then x else y
  }

  function Abs(x: int): nat {
    if x < 0 then -x else x
  }

  /** Where the tokens are that have to be equal for a good snake at a place. */
  predicate GoodSnake(a: seq<Token>, b: seq<Token>, back: bool, x: nat, y: nat) {
    if back then SameTokens(a, x, b, y, SNAKE_CNT)
    else var q := Min(x, y); q >= SNAKE_CNT && SameTokens(a, q - SNAKE_CNT, b, q - SNAKE_CNT, SNAKE_CNT)
  }

  /**
   * From the start, the tokens that are compared have the same indices in both files. So off the main diagonal a good
   * snake need not end at its place: here the tokens in front of 21 and 22 differ.
   */
  lemma ForwardSnakeIsElsewhere() returns (a: seq<Token>, b: seq<Token>)
    ensures Bare(a, b) && Fits(|a|, |b|, false, 21, 22) && GoodSnake(a, b, false, 21, 22) && a[20] != b[21]
  {
    a := seq(24, k => if k == 0 then 1 else 0);
    b := seq(24, k => if k == 0 || k >= 21 then 2 else 0);
    assert SameTokens(a, 1, b, 1, SNAKE_CNT);
  }

  /** What the vector holds on the diagonal of `q`. */
  function HeldAt(v: seq<int>, n: nat, m: nat, back: bool, d: nat, q: int): int {
    var at := Diagonal(n, m, back, d, q) + m + 1;
    if 0 <= at < |v| then v[at] else 0
  }

  /** The place on the diagonal of `q`, moved back to the box. */
  function PlaceAt(v: seq<int>, n: nat, m: nat, back: bool, d: nat, q: int): (int, int) {
    Clamped(n, m, back, HeldAt(v, n, m, back, d, q), Diagonal(n, m, back, d, q))
  }

  /** No place on the diagonal of `q` is further from the start of the search than `distance`. */
  predicate NotBeyond(v: seq<int>, n: nat, m: nat, back: bool, d: nat, q: int, distance: int) {
    var p := PlaceAt(v, n, m, back, d, q);
    if back then distance <= p.0 + p.1 else p.0 + p.1 <= distance
  }

  predicate IsAt(v: seq<int>, n: nat, m: nat, back: bool, d: nat, q: int, x: int, y: int) {
    PlaceAt(v, n, m, back, d, q) == (x, y)
  }

  /** How far `x` on diagonal `k` is from the start of the search, and `k` from the main diagonal. */
  function Score(n: nat, m: nat, back: bool, x: int, k: int): int {
    (if back then (n - x) + (m - (x - k)) else x + (x - k)) + Abs(k)
  }

  /** There is room for a snake. */
  predicate Fits(n: nat, m: nat, back: bool, x: int, y: int) {
    if back then 0 <= x < n - SNAKE_CNT && 0 <= y < m - SNAKE_CNT
    else SNAKE_CNT <= x < n && SNAKE_CNT <= y < m
  }

  predicate Interesting(a: seq<Token>, b: seq<Token>, back: bool, x: int, k: int, limit: int) {
    && Fits(|a|, |b|, back, x, x - k) && GoodSnake(a, b, back, x, x - k)
    && Score(|a|, |b|, back, x, k) > limit
  }

  function ScoreOf(n: nat, m: nat, back: bool, res: Option<(nat, nat)>): int {
    match res
    case None => 0
    case Some((x, y)) => Score(n, m, back, x, x - y)
  }

  /** An interesting place with its score, if there is one. */
  predicate SnakeOr(a: seq<Token>, b: seq<Token>, back: bool, limit: int, res: Option<(nat, nat)>, score: int) {
    match res
    case None => score == 0
    case Some((x, y)) =>
      && Divides(|a|, |b|, x, y) && Interesting(a, b, back, x, x - y, limit)
      && score == Score(|a|, |b|, back, x, x - y)
  }

  /** Nothing interesting on the diagonal of `q` scores more than `best`. */
  predicate NotBetter(a: seq<Token>, b: seq<Token>, v: seq<int>, back: bool, d: nat, q: int, limit: int, best: int) {
    var x, k := HeldAt(v, |a|, |b|, back, d, q), Diagonal(|a|, |b|, back, d, q);
    Interesting(a, b, back, x, k, limit) ==> Score(|a|, |b|, back, x, k) <= best
  }

  /** ... which is so for all diagonals in front of that of `i`. */
  predicate NoneBeyond(v: seq<int>, n: nat, m: nat, back: bool, d: nat, lo: int, hi: int, i: int, distance: int) {
    forall q :: lo <= q <= hi && Before(back, q, i) ==> NotBeyond(v, n, m, back, d, q, distance)
  }

  lemma NoneBeyondNext(v: seq<int>, n: nat, m: nat, back: bool, d: nat, lo: int, hi: int, i: int, i': int,
                       distance: int, distance': int)
    requires NoneBeyond(v, n, m, back, d, lo, hi, i, distance) && i' == Next(back, i)
    requires NotBeyond(v, n, m, back, d, i, distance') && if back then distance' <= distance else distance <= distance'
    ensures NoneBeyond(v, n, m, back, d, lo, hi, i', distance')
  {
    forall q | lo <= q <= hi && Before(back, q, i')
      ensures NotBeyond(v, n, m, back, d, q, distance')
    {
      if q != i { assert NotBeyond(v, n, m, back, d, q, distance); }
    }
  }

  predicate NoneBetter(a: seq<Token>, b: seq<Token>, v: seq<int>, back: bool, d: nat, lo: int, hi: int, i: int,
                       limit: int, best: int) {
    forall q :: lo <= q <= hi && Before(back, q, i) ==> NotBetter(a, b, v, back, d, q, limit, best)
  }

  lemma NoneBetterNext(a: seq<Token>, b: seq<Token>, v: seq<int>, back: bool, d: nat, lo: int, hi: int, i: int,
                       i': int, limit: int, best: int, best': int)
    requires NoneBetter(a, b, v, back, d, lo, hi, i, limit, best) && i' == Next(back, i)
    requires NotBetter(a, b, v, back, d, i, limit, best') && best <= best'
    ensures NoneBetter(a, b, v, back, d, lo, hi, i', limit, best')
  {
    forall q | lo <= q <= hi && Before(back, q, i')
      ensures NotBetter(a, b, v, back, d, q, limit, best')
    {
      if q != i { assert NotBetter(a, b, v, back, d, q, limit, best); }
    }
  }

  datatype SearchResult = Nothing | Snake | Found(x: int, y: int)

  const SNAKE_CNT: nat := 20
  const K_HEUR: nat := 4
  const HEUR_MIN_COST: nat := 256
  const ISIZE_MAX: int := 0x7fff_ffff_ffff_ffff

  class MiddleSnakeSearch {
    const back: bool
    const n: nat
    const m: nat
    const kvec: array<int>
    var kmin: int
    var kmax: int
    ghost var lo: int
    ghost var hi: int

    /** The diagonals are those of paths with `d` edits. */
    ghost predicate Searches(a: seq<Token>, b: seq<Token>, d: nat)
      reads this
    {
      && a != [] && b != [] && n == |a| && m == |b| && kvec.Length == n + m + 3 && Bounds(n, m, d, lo, hi)
      && kmin == Diagonal(n, m, back, d, if back then hi else lo)
      && kmax == Diagonal(n, m, back, d, if back then lo else hi)
    }

    ghost predicate Valid(a: seq<Token>, b: seq<Token>, r: Reach, d: nat)
      reads this, kvec
    {
      Searches(a, b, d) && n < I32_MAX && Holds(kvec[..], n, m, back, r, d)
    }

    ghost predicate Prepared(a: seq<Token>, b: seq<Token>, r: Reach, d: nat)
      reads this, kvec
    {
      Searches(a, b, d + 1) && n < I32_MAX && Ready(kvec[..], n, m, back, r, d)
    }

    constructor (a: seq<Token>, b: seq<Token>, back: bool, ghost r: Reach)
      requires |a| < I32_MAX && Furthest(Read(a, back), Read(b, back), r)
      ensures Valid(a, b, r, 0) && this.back == back && fresh(kvec)
    {
      var kmid := if back then |a| - |b| else 0;
      var v := new int[|a| + |b| + 3];
      v[kmid + |b| + 1] := if back then |a| else 0;
      this.back, n, m, kvec, kmin, kmax, lo, hi := back, |a|, |b|, v, kmid, kmid, 0, 0;
      assert FurthestAt(Read(a, back), Read(b, back), r, 0, 0);
      assert forall i :: HoldsAt(v[..], |a|, |b|, back, r, 0, i);
    }

    predicate Contains(k: int)
      reads this
    {
      kmin <= k <= kmax
    }

    function XPosAtDiagonal(k: int): int
      requires 0 <= k + m + 1 < kvec.Length
      reads kvec
    {
      kvec[k + m + 1]
    }

    /** Extends the diagonals by one on both sides, or takes one away where the box ends. */
    method Widen()
      requires kvec.Length == n + m + 3 && 0 <= kmin + m && kmin <= n && 0 <= kmax + m && kmax <= n
      modifies this`kmin, this`kmax, kvec
      ensures kvec[..] == Marked(Marked(old(kvec[..]), m, back, old(kmin) - 2, old(kmin) + m > 0), m, back,
                                 old(kmax) + 2, old(kmax) < n)
      ensures kmin == (if old(kmin) + m > 0 then old(kmin) - 1 else old(kmin) + 1)
      ensures kmax == (if old(kmax) < n then old(kmax) + 1 else old(kmax) - 1)
    {
      if kmin + m > 0 {
        kmin := kmin - 1;
        kvec[kmin + m] := Sentinel(back);
      } else {
        kmin := kmin + 1;
      }
      if kmax < n {
        kmax := kmax + 1;
        kvec[kmax + m + 2] := Sentinel(back);
      } else {
        kmax := kmax - 1;
      }
    }

    method NextD(ghost a: seq<Token>, ghost b: seq<Token>, ghost r: Reach, ghost d: nat)
      requires Valid(a, b, r, d)
      modifies this, kvec
      ensures Prepared(a, b, r, d)
    {
      ghost var w := Marked(Marked(kvec[..], m, back, kmin - 2, kmin + m > 0), m, back, kmax + 2, kmax < n);
      MarkedIsReady(kvec[..], w, n, m, back, r, d, lo, hi, kmin, kmax);
      Widen();
      lo, hi := NextLow(m, d, lo), NextHigh(n, d, hi);
      assert kvec[..] == w;
    }

    /** Where a path begins on diagonal `k`, before its snake. */
    method ChoosePlace(ghost a: seq<Token>, ghost b: seq<Token>, ghost r: Reach, ghost d: nat, k: int, ghost i: int)
      returns (x: int)
      requires Searches(a, b, d + 1) && Furthest(Read(a, back), Read(b, back), r) && n < I32_MAX
      requires InRange(n, m, d + 1, i) && k == Diagonal(n, m, back, d + 1, i) && ReadyAt(kvec[..], n, m, back, r, d, i)
      ensures x == Value(n, back, Start(n, m, r, d + 1, i))
      ensures if back then x <= n && x - k <= m else x >= 0 && x - k >= 0
      ensures Value(m, back, x - k) == Value(n, back, x) - (2 * i - (d + 1))
      ensures var s := Value(n, back, x);
              r(d + 1, i) == s + SnakeLength(Read(a, back), Read(b, back), s, s - (2 * i - (d + 1)))
    {
      ghost var p, q := Read(a, back), Read(b, back);
      ChooseIsStart(p, q, back, r, d, i);
      ReachLow(p, q, r, d + 1, i);
      assert FurthestAt(p, q, r, d + 1, i);
      x := Choose(back, XPosAtDiagonal(k - 1), XPosAtDiagonal(k + 1));
    }

    /** The place of a path on diagonal `k`, from what is known about its neighbours. */
    method Advance(a: seq<Token>, b: seq<Token>, ghost r: Reach, ghost d: nat, k: int, ghost i: int)
      returns (x: int, off: nat)
      requires Searches(a, b, d + 1) && Furthest(Read(a, back), Read(b, back), r) && n < I32_MAX
      requires InRange(n, m, d + 1, i) && k == Diagonal(n, m, back, d + 1, i) && ReadyAt(kvec[..], n, m, back, r, d, i)
      ensures x == Value(n, back, r(d + 1, i))
    {
      x := ChoosePlace(a, b, r, d, k, i);
      off := Follow(a, b, back, x, x - k);
      x := if back then x - off else x + off;
    }

    /** One more edit on diagonal `k`. */
    method Record(a: seq<Token>, b: seq<Token>, ghost r: Reach, ghost d: nat, k: int, ghost i: int)
      returns (x: int, off: nat)
      requires Searches(a, b, d + 1) && Furthest(Read(a, back), Read(b, back), r) && n < I32_MAX
      requires InRange(n, m, d + 1, i) && k == Diagonal(n, m, back, d + 1, i) && Updated(kvec[..], n, m, back, r, d, i)
      modifies kvec
      ensures x == Value(n, back, r(d + 1, i)) && Updated(kvec[..], n, m, back, r, d, Next(back, i))
    {
      assert UpdatedAt(kvec[..], n, m, back, r, d, i, i);
      ghost var v := kvec[..];
      x, off := Advance(a, b, r, d, k, i);
      kvec[k + m + 1] := x;
      Update(v, kvec[..], n, m, back, r, d, i, Next(back, i));
    }

    /** Whether this search, at `x` on diagonal `k`, meets the other one. */
    method Meets(ghost a: seq<Token>, ghost b: seq<Token>, ghost r: Reach, ghost d: nat, k: int, ghost i: int, x: int,
                 other: MiddleSnakeSearch, ghost s: Reach, ghost e: nat, ghost half: int)
      returns (met: bool)
      requires Searches(a, b, d) && InRange(n, m, d, i) && k == Diagonal(n, m, back, d, i)
            && x == Value(n, back, r(d, i))
      requires other.back != back && other.Valid(a, b, s, e) && Turns(n, m, d, e, half)
      requires Bare(a, b) && Both(Read(a, back), Read(b, back), r, s) && d > 0
      requires e > 0 ==> Apart(n, m, r, d - 1, s, e - 1)
      ensures if met then Middle(a, b, x, x - k) else ApartOn(n, m, r, d, i, s, e, half - i)
    {
      MetIs(other.kvec[..], n, m, back, r, d, i, s, e, other.lo, other.hi, half);
      met := other.Contains(k) && if back then x <= other.XPosAtDiagonal(k) else other.XPosAtDiagonal(k) <= x;
      if met { MeetingIsMiddle(a, b, back, r, d, i, s, e, half); }
    }

    /** One more edit on diagonal `k`. With `check`, the search ends if it meets the other one there. */
    method Turn(a: seq<Token>, b: seq<Token>, ghost r: Reach, ghost d: nat, check: bool, k: int, ghost i: int,
                other: MiddleSnakeSearch, ghost s: Reach, ghost e: nat, ghost half: int, before: SearchResult)
      returns (res: SearchResult)
      requires Searches(a, b, d + 1) && n < I32_MAX && Furthest(Read(a, back), Read(b, back), r) && !before.Found?
      requires other.back != back && other.kvec != kvec && other.Valid(a, b, s, e)
      requires check ==> Bare(a, b) && Both(Read(a, back), Read(b, back), r, s) && Turns(n, m, d + 1, e, half)
      requires check && e > 0 ==> Apart(n, m, r, d, s, e - 1)
      requires lo <= i <= hi && k == Diagonal(n, m, back, d + 1, i)
      requires Turned(kvec[..], n, m, back, r, d, s, e, i, check)
      modifies kvec
      ensures res.Found? ==> Middle(a, b, res.x, res.y)
      ensures !res.Found? ==> Turned(kvec[..], n, m, back, r, d, s, e, Next(back, i), check)
    {
      ghost var d' := d + 1;
      BoundsAre(n, m, d', lo, hi, i);
      var x, off := Record(a, b, r, d, k, i);
      res := if off > SNAKE_CNT then Snake else before;
      if check {
        var met := Meets(a, b, r, d', k, i, x, other, s, e, half);
        if met { return Found(x, x - k); }
        ApartNext(n, m, back, r, d', s, e, i, half);
      }
    }

    /** One more edit on all diagonals. */
    method Run(a: seq<Token>, b: seq<Token>, ghost r: Reach, ghost d: nat, check: bool,
               other: MiddleSnakeSearch, ghost s: Reach, ghost e: nat, ghost half: int)
      returns (res: SearchResult)
      requires Prepared(a, b, r, d) && Furthest(Read(a, back), Read(b, back), r)
      requires other.back != back && other.kvec != kvec && other.Valid(a, b, s, e)
      requires check ==> Bare(a, b) && Both(Read(a, back), Read(b, back), r, s) && Turns(n, m, d + 1, e, half)
      requires check && e > 0 ==> Apart(n, m, r, d, s, e - 1)
      modifies kvec
      ensures res.Found? ==> Middle(a, b, res.x, res.y)
      ensures !res.Found? ==> Valid(a, b, r, d + 1) && (check ==> Apart(n, m, r, d + 1, s, e))
    {
      res := Nothing;
      var k := kmax;
      ghost var i, d' := if back then lo else hi, d + 1;
      TurnedAtFirst(kvec[..], n, m, back, r, d, d', s, e, lo, hi, i, check);
      while k >= kmin
        invariant AtTurn(n, m, back, d', lo, hi, kmin, k, i)
        invariant Turned(kvec[..], n, m, back, r, d, s, e, i, check)
        invariant !res.Found?
        decreases k - kmin + 2
      {
        res := Turn(a, b, r, d, check, k, i, other, s, e, half, res);
        if res.Found? { return; }
        AtNextTurn(n, m, back, d', lo, hi, kmin, k, i);
        k, i := k - 2, Next(back, i);
      }
      TurnedAtLast(kvec[..], n, m, back, r, d, d', s, e, lo, hi, i, check);
    }

    /** The place on diagonal `k`, moved back to the box. */
    method Position(ghost a: seq<Token>, ghost b: seq<Token>, ghost r: Reach, ghost d: nat, k: int, ghost i: int)
      returns (x: int, y: int)
      requires Valid(a, b, r, d) && Furthest(Read(a, back), Read(b, back), r) && d > 0 && CornerFree(n, m, r, d)
      requires lo <= i <= hi && k == Diagonal(n, m, back, d, i)
      ensures Divides(n, m, x, y) && IsAt(kvec[..], n, m, back, d, i, x, y)
    {
      BoundsAre(n, m, d, lo, hi, i);
      ghost var f, g := Read(a, back), Read(b, back);
      assert |f| == n && |g| == m;
      HeldDivides(kvec[..], f, g, back, r, d, i, k);
      var p := Clamped(n, m, back, XPosAtDiagonal(k), k);
      x, y := p.0, p.1;
    }

    /** The place furthest from the start of the search, moved back to the box. */
    method BestPosition(ghost a: seq<Token>, ghost b: seq<Token>, ghost r: Reach, ghost d: nat)
      returns (distance: int, x: int, ghost best: int)
      requires Valid(a, b, r, d) && Furthest(Read(a, back), Read(b, back), r) && d > 0 && CornerFree(n, m, r, d)
      requires m < I32_MAX
      ensures Divides(n, m, x, distance - x)
      ensures lo <= best <= hi && IsAt(kvec[..], n, m, back, d, best, x, distance - x)
      ensures NoneBeyond(kvec[..], n, m, back, d, lo, hi, Past(back, lo, hi), distance)
    {
      distance, x := if back then ISIZE_MAX else -1, if back then I32_MAX else -1;
      var k := kmax;
      ghost var i := if back then lo else hi;
      best := i;
      ghost var y := distance - x;
      while k >= kmin
        invariant AtTurn(n, m, back, d, lo, hi, kmin, k, i) && k <= kmax && distance == x + y
        invariant if k == kmax then distance == (if back then ISIZE_MAX else -1)
                  else Divides(n, m, x, y) && lo <= best <= hi && IsAt(kvec[..], n, m, back, d, best, x, y)
        invariant NoneBeyond(kvec[..], n, m, back, d, lo, hi, i, distance)
        decreases k - kmin + 2
      {
        ghost var before := distance;
        var x', y' := Position(a, b, r, d, k, i);
        if (back && x' + y' < distance) || (!back && x' + y' > distance) {
          distance, x, y, best := x' + y', x', y', i;
        }
        NoneBeyondNext(kvec[..], n, m, back, d, lo, hi, i, Next(back, i), before, distance);
        AtNextTurn(n, m, back, d, lo, hi, kmin, k, i);
        k, i := k - 2, Next(back, i);
      }
    }

    /** Whether there is room for a snake at a place, and a good one. */
    method Candidate(a: seq<Token>, b: seq<Token>, x: int, k: int, limit: int) returns (ok: bool)
      requires Bare(a, b) && n == |a| && m == |b| && limit >= 0
      ensures ok <==> Interesting(a, b, back, x, k, limit)
      ensures ok ==> Divides(n, m, x, x - k)
    {
      var y := x - k;
      ok := Score(n, m, back, x, k) > limit && Fits(n, m, back, x, y);
      if ok && back {
        ok := AllEqual(a, x, b, y, SNAKE_CNT);
        if ok { assert a[x] == b[y]; }
      } else if ok {
        var q := Min(x, y);
        ok := AllEqual(a, q - SNAKE_CNT, b, q - SNAKE_CNT, SNAKE_CNT);
      }
    }

    /** The better one of the best place so far and that on diagonal `k`. */
    method Consider(a: seq<Token>, b: seq<Token>, limit: nat, ghost d: nat, k: int, ghost i: int,
                    res: Option<(nat, nat)>, best: nat)
      returns (res': Option<(nat, nat)>, best': nat)
      requires Searches(a, b, d) && Bare(a, b) && lo <= i <= hi && k == Diagonal(n, m, back, d, i)
      requires SnakeOr(a, b, back, limit, res, best)
      ensures SnakeOr(a, b, back, limit, res', best')
      ensures best <= best' && NotBetter(a, b, kvec[..], back, d, i, limit, best')
    {
      BoundsAre(n, m, d, lo, hi, i);
      var x := XPosAtDiagonal(k);
      assert HeldAt(kvec[..], n, m, back, d, i) == x;
      var score := Score(n, m, back, x, k);
      res', best' := res, best;
      if score > best {
        var ok := Candidate(a, b, x, k, limit);
        if ok { res', best' := Some((x, x - k)), score; }
      }
    }

    /** The best place behind, or in front of, a good snake. */
    method FoundSnake(a: seq<Token>, b: seq<Token>, ec: nat, ghost d: nat) returns (res: Option<(nat, nat)>)
      requires Searches(a, b, d) && Bare(a, b)
      ensures SnakeOr(a, b, back, K_HEUR * ec, res, ScoreOf(n, m, back, res))
      ensures NoneBetter(a, b, kvec[..], back, d, lo, hi, Past(back, lo, hi), K_HEUR * ec, ScoreOf(n, m, back, res))
    {
      res := None;
      var k, bestScore: nat := kmax, 0;
      ghost var i := if back then lo else hi;
      while k >= kmin
        invariant AtTurn(n, m, back, d, lo, hi, kmin, k, i)
        invariant SnakeOr(a, b, back, K_HEUR * ec, res, bestScore)
        invariant NoneBetter(a, b, kvec[..], back, d, lo, hi, i, K_HEUR * ec, bestScore)
        decreases k - kmin + 2
      {
        ghost var before := bestScore;
        res, bestScore := Consider(a, b, K_HEUR * ec, d, k, i, res, bestScore);
        NoneBetterNext(a, b, kvec[..], back, d, lo, hi, i, Next(back, i), K_HEUR * ec, before, bestScore);
        AtNextTurn(n, m, back, d, lo, hi, kmin, k, i);
        k, i := k - 2, Next(back, i);
      }
    }
  }

  // -------------------------------------------------------------------------------------------------
  // `Myers::split`
  // -------------------------------------------------------------------------------------------------

  datatype Split = Split(idx1: nat, idx2: nat, minimizedLo: bool, minimizedHi: bool)

  /** What is known after `ec` rounds. */
  ghost predicate Going(n: nat, m: nat, odd: bool, r: Reach, s: Reach, ec: nat) {
    if odd then ec > 0 ==> Apart(n, m, r, ec, s, ec - 1) else Apart(n, m, s, ec, r, ec)
  }

  /** Two searches that belong together. */
  ghost predicate Paired(forward: MiddleSnakeSearch, backward: MiddleSnakeSearch, a: seq<Token>, b: seq<Token>) {
    forward != backward && forward.kvec != backward.kvec && !forward.back && backward.back
    && forward.n == backward.n == |a| && forward.m == backward.m == |b|
  }

  /** Half the diagonal of the far corner. */
  predicate Halves(n: nat, m: nat, odd: bool, half: int) {
    2 * half == if odd then n - m - 1 else n - m
  }

  function Half(n: nat, m: nat): (half: int)
    ensures Halves(n, m, (m - n) % 2 != 0, half)
  {
    (n - m - (m - n) % 2) / 2
  }

  /** One round: the forward search and then the other one, either of which may find the meeting point. */
  method Round(a: seq<Token>, b: seq<Token>, ghost r: Reach, ghost s: Reach, odd: bool,
               forward: MiddleSnakeSearch, backward: MiddleSnakeSearch, ghost ec: nat, ghost half: int)
    returns (res: SearchResult)
    requires Bare(a, b) && Both(a, b, r, s) && Paired(forward, backward, a, b)
    requires forward.Valid(a, b, r, ec) && backward.Valid(a, b, s, ec)
    requires Halves(|a|, |b|, odd, half) && Going(|a|, |b|, odd, r, s, ec)
    modifies forward, forward.kvec, backward, backward.kvec
    ensures res.Found? ==> Middle(a, b, res.x, res.y)
    ensures !res.Found? ==> && forward.Valid(a, b, r, ec + 1) && backward.Valid(a, b, s, ec + 1)
                            && Going(|a|, |b|, odd, r, s, ec + 1)
  {
    BothMirrored(a, b, r, s);
    forward.NextD(a, b, r, ec);
    res := forward.Run(a, b, r, ec, odd, backward, s, ec, half + ec + 1);
    if res.Found? { return; }
    backward.NextD(a, b, s, ec);
    var res' := backward.Run(a, b, s, ec, !odd, forward, r, ec + 1, half + ec + 1);
    if !res'.Nothing? { res := res'; }
  }

  lemma GoingInTime(a: seq<Token>, b: seq<Token>, odd: bool, r: Reach, s: Reach, ec: nat, half: int)
    requires Both(a, b, r, s) && Halves(|a|, |b|, odd, half) && ec > 0 && Going(|a|, |b|, odd, r, s, ec)
    ensures ec < |a| + |b|
  {
    BothMirrored(a, b, r, s);
    if odd {
      MeetsInTime(a, b, r, ec, s, ec - 1, half + ec);
    } else {
      MeetsInTime(Mirror(a), Mirror(b), s, ec, r, ec, half + ec);
    }
  }

  /** The number of rounds before a heuristic may end the search. */
  function Patience(maxCost: nat): nat {
    if maxCost <= HEUR_MIN_COST then maxCost else HEUR_MIN_COST + 1
  }

  /** Files with so many edits are divided on a shortest path. */
  predicate Thorough(needMin: bool, maxCost: nat, edits: int) {
    needMin || edits <= 2 * Patience(maxCost)
  }

  /** As long as the searches have not met, there are more edits than they have made. */
  lemma GoingIsShort(a: seq<Token>, b: seq<Token>, odd: bool, r: Reach, s: Reach, ec: nat, half: int)
    requires Bare(a, b) && Both(a, b, r, s) && Halves(|a|, |b|, odd, half) && ec > 0 && Going(|a|, |b|, odd, r, s, ec)
    ensures Edits(a, b, |a|, |b|) > 2 * ec
  {
    BothMirrored(a, b, r, s);
    if odd {
      ApartIsShort(a, b, r, ec, s, ec - 1, half + ec);
    } else {
      ApartIsShort(Mirror(a), Mirror(b), s, ec, r, ec, half + ec);
      EditsMirrored(a, b, 0, 0);
    }
  }

  lemma GoingCornerFree(a: seq<Token>, b: seq<Token>, odd: bool, r: Reach, s: Reach, ec: nat, half: int)
    requires Bare(a, b) && Both(a, b, r, s) && Halves(|a|, |b|, odd, half) && ec > 0 && Going(|a|, |b|, odd, r, s, ec)
    ensures CornerFree(|a|, |b|, r, ec) && CornerFree(|a|, |b|, s, ec)
  {
    BothMirrored(a, b, r, s);
    if odd {
      ApartCornerFree(a, b, r, ec, s, ec - 1, half + ec);
      ApartMirrored(|a|, |b|, r, ec, s, ec - 1);
      LaterCornerFree(Mirror(a), Mirror(b), s, ec, r, half + ec);
    } else {
      ApartCornerFree(Mirror(a), Mirror(b), s, ec, r, ec, half + ec);
      ApartMirrored(|a|, |b|, s, ec, r, ec);
      ApartCornerFree(a, b, r, ec, s, ec, half + ec);
    }
  }

  lemma GoingAtFirst(a: seq<Token>, b: seq<Token>, odd: bool, r: Reach, s: Reach)
    requires Both(a, b, r, s)
    ensures Going(|a|, |b|, odd, r, s, 0)
  {
    assert FurthestAt(a, b, r, 0, 0) && FurthestAt(Mirror(a), Mirror(b), s, 0, 0);
    forall i, j
      ensures ApartOn(|a|, |b|, s, 0, i, r, 0, j)
    {
    }
  }

  /** Once the searches are too expensive, the one that got further decides. */
  method Settle(ghost a: seq<Token>, ghost b: seq<Token>, ghost r: Reach, ghost s: Reach, ghost odd: bool,
                forward: MiddleSnakeSearch, backward: MiddleSnakeSearch, ghost ec: nat, ghost half: int)
    returns (split: Split)
    requires Bare(a, b) && Both(a, b, r, s) && Paired(forward, backward, a, b) && ec > 0 && forward.m < I32_MAX
    requires forward.Valid(a, b, r, ec) && backward.Valid(a, b, s, ec)
    requires Halves(|a|, |b|, odd, half) && Going(|a|, |b|, odd, r, s, ec)
    ensures Divides(|a|, |b|, split.idx1, split.idx2)
  {
    GoingCornerFree(a, b, odd, r, s, ec, half);
    var distance, x, _ := forward.BestPosition(a, b, r, ec);
    var distance', x', _ := backward.BestPosition(a, b, s, ec);
    split := if distance > forward.n + forward.m - distance' then Split(x, distance - x, true, false)
             else Split(x', distance' - x', false, true);
  }

  /** A long snake that either search came across ends the round early. */
  method LongSnake(a: seq<Token>, b: seq<Token>, forward: MiddleSnakeSearch, backward: MiddleSnakeSearch, ec: nat)
    returns (found: Option<Split>)
    requires Bare(a, b) && Paired(forward, backward, a, b) && forward.Searches(a, b, ec) && backward.Searches(a, b, ec)
    ensures found.Some? ==> && Divides(|a|, |b|, found.value.idx1, found.value.idx2)
                            && found.value.minimizedLo != found.value.minimizedHi
                            && GoodSnake(a, b, found.value.minimizedHi, found.value.idx1, found.value.idx2)
  {
    var snake := forward.FoundSnake(a, b, ec, ec);
    if snake.Some? { return Some(Split(snake.value.0, snake.value.1, true, false)); }
    var snake' := backward.FoundSnake(a, b, ec, ec);
    return if snake'.Some? then Some(Split(snake'.value.0, snake'.value.1, false, true)) else None;
  }

  /** What ends the search before the paths have met: a long snake, or too many rounds. */
  method Shortcut(a: seq<Token>, b: seq<Token>, ghost r: Reach, ghost s: Reach, ghost odd: bool,
                  forward: MiddleSnakeSearch, backward: MiddleSnakeSearch, ec: nat, ghost half: int,
                  snake: bool, maxCost: nat)
    returns (found: Option<Split>)
    requires Bare(a, b) && Both(a, b, r, s) && Paired(forward, backward, a, b) && ec > 0 && forward.m < I32_MAX
    requires forward.Valid(a, b, r, ec) && backward.Valid(a, b, s, ec)
    requires Halves(|a|, |b|, odd, half) && Going(|a|, |b|, odd, r, s, ec)
    ensures found.Some? ==> Divides(|a|, |b|, found.value.idx1, found.value.idx2)
    ensures ec >= maxCost ==> found.Some?
    ensures found.Some? ==> ec >= Patience(maxCost)
  {
    if snake && ec > HEUR_MIN_COST {
      found := LongSnake(a, b, forward, backward, ec);
      if found.Some? { return; }
    }
    if ec < maxCost { return None; }
    var split := Settle(a, b, r, s, odd, forward, backward, ec, half);
    return Some(split);
  }

  /**
   * Divides two files without common ends so that both parts are smaller, on a shortest path if that is asked for or
   * if there are too few edits for the heuristics.
   */
  method FindSplit(a: seq<Token>, b: seq<Token>, needMin: bool, maxCost: nat) returns (split: Split)
    requires Bare(a, b) && |a| < I32_MAX && |b| < I32_MAX
    ensures Divides(|a|, |b|, split.idx1, split.idx2)
    ensures Thorough(needMin, maxCost, Edits(a, b, |a|, |b|)) ==>
              OnShortest(a, b, split.idx1, split.idx2) && split.minimizedLo && split.minimizedHi
  {
    ghost var r := FurthestExists(a, b);
    ghost var s := FurthestExists(Mirror(a), Mirror(b));
    var forward := new MiddleSnakeSearch(a, b, false, r);
    var backward := new MiddleSnakeSearch(a, b, true, s);
    var odd := (|b| - |a|) % 2 != 0;
    var ec := 0;
    ghost var half := Half(|a|, |b|);
    assert Both(a, b, r, s) && Halves(|a|, |b|, odd, half);
    GoingAtFirst(a, b, odd, r, s);
    while true
      invariant Paired(forward, backward, a, b) && fresh(forward) && fresh(backward) && fresh(forward.kvec)
             && fresh(backward.kvec)
      invariant forward.Valid(a, b, r, ec) && backward.Valid(a, b, s, ec)
      invariant Going(|a|, |b|, odd, r, s, ec) && ec < |a| + |b|
      decreases |a| + |b| - ec
    {
      var res := Round(a, b, r, s, odd, forward, backward, ec, half);
      if res.Found? { return Split(res.x, res.y, true, true); }
      ec := ec + 1;
      GoingInTime(a, b, odd, r, s, ec, half);
      if needMin { continue; }
      var found := Shortcut(a, b, r, s, odd, forward, backward, ec, half, res.Snake?, maxCost);
      if found.Some? {
        GoingIsShort(a, b, odd, r, s, ec, half);
        return found.value;
      }
    }
  }
}
