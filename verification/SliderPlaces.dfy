/**
 * Where `gix-imara-diff/src/postprocess.rs` leaves the hunks: what it means that all of them are settled and placed,
 * said of the markers before and after, and what sliding one hunk does to the others.
 */
module SliderPlaces {
  import opened DiffMarks

  /** Where a hunk `start..end` is to end, if it could end in `earliestEnd` or anywhere behind that. */
  type Heuristic = (seq<Token>, nat, nat, nat) --> nat

  /** The hunk has slid down from a place in the file. */
  predicate Slidable(start: nat, end: nat, earliestEnd: nat) {
    start < end && end - start <= earliestEnd < end
  }

  /** The heuristic answers for all hunks that have slid down; it need not do so for others. */
  ghost predicate Serves(heuristic: Heuristic) {
    forall tokens, start, end, earliestEnd ::
      Slidable(start, end, earliestEnd) ==> heuristic.requires(tokens, start, end, earliestEnd)
  }

  function Clamp(x: nat, lo: nat, hi: nat): nat {
    if x < lo then lo else if x < hi then x else hi
  }

  // -------------------------------------------------------------------------------------------------
  // How far a hunk can slide.
  // -------------------------------------------------------------------------------------------------

  /** The first place to which `n` tokens at `s` can slide up. */
  function Top(tokens: seq<Token>, s: nat, n: nat): (t: nat)
    requires s + n <= |tokens| && n > 0
    ensures t <= s
  {
    if s > 0 && tokens[s - 1] == tokens[s - 1 + n] then Top(tokens, s - 1, n) else s
  }

  /** The last place to which `n` tokens at `s` can slide down. */
  function Bottom(tokens: seq<Token>, s: nat, n: nat): (b: nat)
    requires s + n <= |tokens| && n > 0
    ensures s <= b && b + n <= |tokens|
    decreases |tokens| - s
  {
    if s + n < |tokens| && tokens[s] == tokens[s + n] then Bottom(tokens, s + 1, n) else s
  }

  /** `n` tokens can slide between the places `t` and `b`. */
  predicate Slides(tokens: seq<Token>, t: nat, b: nat, n: nat) {
    b + n <= |tokens| && forall x :: t <= x < b ==> Repeats(tokens, x, n)
  }

  /** The token at `x` occurs again `n` tokens later. */
  predicate Repeats(tokens: seq<Token>, x: int, n: nat) {
    0 <= x && x + n < |tokens| && tokens[x] == tokens[x + n]
  }

  lemma {:induction false} TopIs(tokens: seq<Token>, t: nat, s: nat, n: nat)
    requires n > 0 && t <= s && Slides(tokens, t, s, n) && (t > 0 ==> tokens[t - 1] != tokens[t - 1 + n])
    ensures Top(tokens, s, n) == t
    decreases s
  {
    if t < s {
      assert Repeats(tokens, s - 1, n);
      TopIs(tokens, t, s - 1, n);
    }
  }

  lemma {:induction false} BottomIs(tokens: seq<Token>, s: nat, b: nat, n: nat)
    requires n > 0 && s <= b && Slides(tokens, s, b, n) && (b + n < |tokens| ==> tokens[b] != tokens[b + n])
    ensures Bottom(tokens, s, n) == b
    decreases b - s
  {
    if s < b {
      assert Repeats(tokens, s, n);
      BottomIs(tokens, s + 1, b, n);
    }
  }

  // -------------------------------------------------------------------------------------------------
  // Where it is to rest.
  // -------------------------------------------------------------------------------------------------

  /** There are removed tokens behind `c` unmarked ones. */
  ghost predicate Meets(removed: seq<bool>, c: int) {
    exists bs: nat, be: nat :: bs < be && IsRun(removed, bs, be) && Free(removed, bs) == c
  }

  ghost predicate MeetsWithin(removed: seq<bool>, c: int, q: int) {
    exists k :: c <= k <= c + q && Meets(removed, k)
  }

  /**
   * A hunk with `c` unmarked tokens in front of it, which can slide between `top` and `bottom`, stands at `s`: in the
   * last place next to removed tokens, if there is one, and otherwise where the heuristic wants it.
   */
  ghost predicate Chosen(tokens: seq<Token>, removed: seq<bool>, c: int, s: nat, n: nat, top: nat, bottom: nat,
                         heuristic: Heuristic)
    requires Serves(heuristic) && n > 0
  {
    top < bottom && top <= s <= bottom ==>
      if MeetsWithin(removed, c - (s - top), bottom - top)
      then Meets(removed, c) && !MeetsWithin(removed, c + 1, bottom - s - 1)
      else s + n == Clamp(heuristic(tokens, bottom, bottom + n, top + n), top + n, bottom + n)
  }

  /**
   * All tokens that were marked up to some place, not before `low`, are marked up to `e`; the next one was not
   * marked.
   */
  ghost predicate Absorbed(initial: seq<bool>, marks: seq<bool>, e: nat, low: nat) {
    exists f: nat :: low <= f && Caught(initial, marks, e, f)
  }

  predicate Caught(initial: seq<bool>, marks: seq<bool>, e: nat, f: nat) {
    e <= f <= |initial| == |marks| && e - Free(marks, e) == f - Free(initial, f) && (f < |initial| ==> !initial[f])
  }

  /** A run of markers is where it belongs, and cannot slide up to touch another one. */
  ghost predicate Placed(tokens: seq<Token>, removed: seq<bool>, initial: seq<bool>, marks: seq<bool>, s: nat, e: nat,
                         heuristic: Heuristic)
    requires Serves(heuristic)
  {
    && s < e <= |tokens| == |marks|
    && var n := e - s; var top, bottom := Top(tokens, s, n), Bottom(tokens, s, n);
    && Unmarked(marks, top, s) && (top > 0 ==> !marks[top - 1])
    && Absorbed(initial, marks, e, bottom + n)
    && Chosen(tokens, removed, Free(marks, s), s, n, top, bottom, heuristic)
  }

  /** All runs up to `n` are. */
  ghost predicate AllPlaced(tokens: seq<Token>, removed: seq<bool>, initial: seq<bool>, marks: seq<bool>, n: nat,
                            heuristic: Heuristic)
    requires Serves(heuristic)
  {
    forall a: nat, b: nat :: RunWithin(marks, n, a, b) ==> Placed(tokens, removed, initial, marks, a, b, heuristic)
  }

  predicate RunWithin(marks: seq<bool>, n: nat, a: nat, b: nat) {
    a < b <= n && IsRun(marks, a, b)
  }

  lemma {:induction false} FreeFrame(m: seq<bool>, m': seq<bool>, n: nat)
    requires n <= |m| && SameInside(m, m', 0, n)
    ensures Free(m', n) == Free(m, n)
  {
    if n > 0 { FreeFrame(m, m', n - 1); }
  }

  lemma PlacedStable(tokens: seq<Token>, removed: seq<bool>, initial: seq<bool>, m: seq<bool>, m': seq<bool>, s: nat,
                     e: nat, heuristic: Heuristic)
    requires Serves(heuristic) && Placed(tokens, removed, initial, m, s, e, heuristic) && SameInside(m, m', 0, e)
    ensures Placed(tokens, removed, initial, m', s, e, heuristic)
  {
    FreeFrame(m, m', s);
    FreeFrame(m, m', e);
    var low := Bottom(tokens, s, e - s) + (e - s);
    var f: nat :| low <= f && Caught(initial, m, e, f);
    assert Caught(initial, m', e, f);
  }

  // -------------------------------------------------------------------------------------------------
  // What sliding a hunk does to those in front of it.
  // -------------------------------------------------------------------------------------------------

  /** The runs of `m'` up to `n'` are runs of `m` up to `n`, with the same markers in front of them. */
  ghost predicate Undisturbed(m: seq<bool>, n: nat, m': seq<bool>, n': nat) {
    forall a: nat, b: nat :: RunWithin(m', n', a, b) ==> RunWithin(m, n, a, b) && SameInside(m, m', 0, b)
  }

  lemma UndisturbedTwice(m: seq<bool>, n: nat, m': seq<bool>, n': nat, m'': seq<bool>, n'': nat)
    requires Undisturbed(m, n, m', n') && Undisturbed(m', n', m'', n'')
    ensures Undisturbed(m, n, m'', n'')
  {}

  /** Runs in front of a place behind which nothing else has changed. */
  lemma UndisturbedFrom(m: seq<bool>, n: nat, m': seq<bool>, n': nat, k: nat)
    requires k <= n && |m'| == |m| && SameInside(m, m', 0, k) && Unmarked(m', k, n')
    requires 0 < k <= |m| ==> !m[k - 1]
    ensures Undisturbed(m, n, m', n')
  {
    forall a: nat, b: nat | RunWithin(m', n', a, b)
      ensures RunWithin(m, n, a, b) && SameInside(m, m', 0, b)
    {
      assert m'[b - 1];
    }
  }

  lemma AllPlacedStill(tokens: seq<Token>, removed: seq<bool>, initial: seq<bool>, m: seq<bool>, n: nat,
                       m': seq<bool>, n': nat, heuristic: Heuristic)
    requires Serves(heuristic) && AllPlaced(tokens, removed, initial, m, n, heuristic) && Undisturbed(m, n, m', n')
    ensures AllPlaced(tokens, removed, initial, m', n', heuristic)
  {
    forall a: nat, b: nat | RunWithin(m', n', a, b)
      ensures Placed(tokens, removed, initial, m', a, b, heuristic)
    {
      PlacedStable(tokens, removed, initial, m, m', a, b, heuristic);
    }
  }

  /** One more hunk is placed. */
  lemma AllPlacedWith(tokens: seq<Token>, removed: seq<bool>, initial: seq<bool>, m: seq<bool>, s: nat, e: nat,
                      heuristic: Heuristic)
    requires Serves(heuristic) && AllPlaced(tokens, removed, initial, m, s, heuristic)
    requires IsRun(m, s, e) && Placed(tokens, removed, initial, m, s, e, heuristic)
    ensures AllPlaced(tokens, removed, initial, m, e, heuristic)
  {
    forall a: nat, b: nat | RunWithin(m, e, a, b)
      ensures Placed(tokens, removed, initial, m, a, b, heuristic)
    {
      assert m[b - 1];
      if b <= s {
        assert RunWithin(m, s, a, b);
      } else {
        LastRun(m, s, e, a, b);
      }
    }
  }

  lemma LastRun(m: seq<bool>, s: nat, e: nat, a: nat, b: nat)
    requires IsRun(m, s, e) && RunWithin(m, e, a, b) && s < b
    ensures a == s && b == e
  {
    assert m[b - 1];
  }

  // -------------------------------------------------------------------------------------------------
  // What is still to come.
  // -------------------------------------------------------------------------------------------------

  /** Behind `f` the markers are those of the beginning; between the hunk and `f` there are none. */
  ghost predicate Frontier(initial: seq<bool>, m: seq<bool>, end: nat, f: nat) {
    && end <= f <= |m| == |initial| && SameInside(initial, m, f, |m|) && Unmarked(m, end, f)
    && Free(m, f) == Free(initial, f)
  }

  /** There is such a place, not before `low`, and it is not marked. */
  ghost predicate Reached(initial: seq<bool>, m: seq<bool>, end: nat, low: nat) {
    exists f: nat :: low <= f && Frontier(initial, m, end, f) && (f < |m| ==> !m[f])
  }

  /** Up to the frontier, the hunk has caught all markers. */
  lemma ReachedAbsorbs(initial: seq<bool>, m: seq<bool>, end: nat, low: nat)
    requires Reached(initial, m, end, low)
    ensures Absorbed(initial, m, end, low)
  {
    var f: nat :| low <= f && Frontier(initial, m, end, f) && (f < |m| ==> !m[f]);
    FreeOverUnmarked(m, end, f);
    assert Caught(initial, m, end, f);
  }

  lemma {:induction false} FreeBeyond(m: seq<bool>, m': seq<bool>, f: nat, k: nat)
    requires f <= k <= |m| && SameInside(m, m', f, k) && Free(m', f) == Free(m, f)
    ensures Free(m', k) == Free(m, k)
    decreases k
  {
    if f < k { FreeBeyond(m, m', f, k - 1); }
  }

  /** The next hunk is one of the beginning. */
  lemma ReachedNext(initial: seq<bool>, m: seq<bool>, end: nat, s: nat, e: nat)
    requires Reached(initial, m, end, 0) || (end == 0 && m == initial)
    requires end <= s < e && IsRun(m, s, e) && Unmarked(m, end, s)
    ensures Reached(initial, m, e, 0)
  {
    var f: nat := 0;
    if m != initial || end != 0 {
      f :| 0 <= f && Frontier(initial, m, end, f) && (f < |m| ==> !m[f]);
      assert m[s];
    }
    FreeBeyond(initial, m, f, e);
    assert Frontier(initial, m, e, e);
  }
}
