/**
 * The furthest reaching paths that `gix-imara-diff/src/myers/middle_snake.rs` follows: how far in two files paths get
 * with a number of edits, from their start and from their end.
 *
 * A path with `d` edits, `i` of them removals, ends on diagonal `2 * i - d`.
 */
module FurthestPaths {
  import opened DiffMarks
  import opened EditDistance

  // -------------------------------------------------------------------------------------------------
  // Furthest reaching paths.
  // -------------------------------------------------------------------------------------------------

  /** A path with `i` removals among `d` edits ends on a diagonal of the box. */
  predicate InRange(n: nat, m: nat, d: nat, i: int) {
    0 <= i <= d && 0 <= 2 * i - d + m && 2 * i - d <= n
  }

  /** The number of equal tokens from `x` and `y` on. */
  function SnakeLength(a: seq<Token>, b: seq<Token>, x: int, y: int): (r: nat)
    ensures x <= |a| && y <= |b| ==> x + r <= |a| && y + r <= |b|
    decreases |a| - x
  {
    if 0 <= x < |a| && 0 <= y < |b| && a[x] == b[y] then 1 + SnakeLength(a, b, x + 1, y + 1) else 0
  }

  /** How far in the first file paths get, by the numbers of edits and removals. */
  type Reach = (nat, int) -> int

  /** Where the last edit of a path leads, a removal or an addition, whichever gets further. */
  function Start(n: nat, m: nat, r: Reach, d: nat, i: int): int
    requires d > 0
  {
    if !InRange(n, m, d - 1, i - 1) then r(d - 1, i)
    else if !InRange(n, m, d - 1, i) then r(d - 1, i - 1) + 1
    else if r(d - 1, i - 1) >= r(d - 1, i) then r(d - 1, i - 1) + 1
    else r(d - 1, i)
  }

  /** A path follows equal tokens behind its last edit as far as it can. It may leave the box. */
  predicate FurthestAt(a: seq<Token>, b: seq<Token>, r: Reach, d: nat, i: int) {
    InRange(|a|, |b|, d, i) ==>
      if d == 0 then r(d, i) == 0
      else var x := Start(|a|, |b|, r, d, i); r(d, i) == x + SnakeLength(a, b, x, x - (2 * i - d))
  }

  ghost predicate Furthest(a: seq<Token>, b: seq<Token>, r: Reach) {
    a != [] && b != [] && forall d: nat, i: int :: FurthestAt(a, b, r, d, i)
  }

  lemma StartFrom(n: nat, m: nat, r: Reach, d: nat, i: int)
    requires n > 0 && m > 0 && d > 0 && InRange(n, m, d, i)
    ensures || (InRange(n, m, d - 1, i - 1) && Start(n, m, r, d, i) == r(d - 1, i - 1) + 1)
            || (InRange(n, m, d - 1, i) && Start(n, m, r, d, i) == r(d - 1, i))
    ensures InRange(n, m, d - 1, i - 1) ==> Start(n, m, r, d, i) >= r(d - 1, i - 1) + 1
    ensures InRange(n, m, d - 1, i) ==> Start(n, m, r, d, i) >= r(d - 1, i)
  {
  }

  /** Every removal is one step in the first file, and every addition one in the second. */
  lemma {:induction false} ReachLow(a: seq<Token>, b: seq<Token>, r: Reach, d: nat, i: int)
    requires Furthest(a, b, r) && InRange(|a|, |b|, d, i)
    ensures r(d, i) >= i && (d > 0 ==> Start(|a|, |b|, r, d, i) >= i)
    decreases d
  {
    assert FurthestAt(a, b, r, d, i);
    if d > 0 {
      StartFrom(|a|, |b|, r, d, i);
      if InRange(|a|, |b|, d - 1, i - 1) { ReachLow(a, b, r, d - 1, i - 1); }
      if InRange(|a|, |b|, d - 1, i) { ReachLow(a, b, r, d - 1, i); }
    }
  }

  /** A path that leaves the box to the right, beyond the diagonal of the far corner, comes from the right edge. */
  lemma {:induction false} FromRight(a: seq<Token>, b: seq<Token>, r: Reach, d: nat, i: int)
    requires Furthest(a, b, r) && d > 0 && InRange(|a|, |b|, d, i) && 2 * i - d >= |a| - |b|
          && Start(|a|, |b|, r, d, i) > |a|
    ensures InRange(|a|, |b|, d - 1, i - 1) && r(d - 1, i - 1) >= |a|
    decreases d, 0
  {
    StartFrom(|a|, |b|, r, d, i);
    if !(InRange(|a|, |b|, d - 1, i - 1) && Start(|a|, |b|, r, d, i) == r(d - 1, i - 1) + 1) {
      RightEdge(a, b, r, d - 1, i);
    }
  }

  /** A path that has left the box to the right has a neighbour at or beyond the right edge. */
  lemma {:induction false} RightEdge(a: seq<Token>, b: seq<Token>, r: Reach, d: nat, i: int)
    requires Furthest(a, b, r) && InRange(|a|, |b|, d, i) && 2 * i - d > |a| - |b| && r(d, i) > |a|
    ensures InRange(|a|, |b|, d, i - 1) && r(d, i - 1) >= |a|
    decreases d, 1
  {
    assert FurthestAt(a, b, r, d, i) && FurthestAt(a, b, r, d, i - 1);
    FromRight(a, b, r, d, i);
    StartFrom(|a|, |b|, r, d, i - 1);
  }

  /** The same at the bottom. */
  lemma {:induction false} FromBottom(a: seq<Token>, b: seq<Token>, r: Reach, d: nat, i: int)
    requires Furthest(a, b, r) && d > 0 && InRange(|a|, |b|, d, i)
    requires 2 * i - d <= |a| - |b| && Start(|a|, |b|, r, d, i) - (2 * i - d) > |b|
    ensures InRange(|a|, |b|, d - 1, i) && r(d - 1, i) - (2 * i - d + 1) >= |b|
    decreases d, 0
  {
    StartFrom(|a|, |b|, r, d, i);
    if !(InRange(|a|, |b|, d - 1, i) && Start(|a|, |b|, r, d, i) == r(d - 1, i)) {
      BottomEdge(a, b, r, d - 1, i - 1);
    }
  }

  lemma {:induction false} BottomEdge(a: seq<Token>, b: seq<Token>, r: Reach, d: nat, i: int)
    requires Furthest(a, b, r) && InRange(|a|, |b|, d, i)
    requires 2 * i - d < |a| - |b| && r(d, i) - (2 * i - d) > |b|
    ensures InRange(|a|, |b|, d, i + 1) && r(d, i + 1) - (2 * i - d + 2) >= |b|
    decreases d, 1
  {
    assert FurthestAt(a, b, r, d, i) && FurthestAt(a, b, r, d, i + 1);
    FromBottom(a, b, r, d, i);
    StartFrom(|a|, |b|, r, d, i + 1);
  }

  // -------------------------------------------------------------------------------------------------
  // Paths from the end are paths from the start of the reversed files.
  // -------------------------------------------------------------------------------------------------

  /** Paths from both ends, with `d` and `e` edits, are on the same diagonal. */
  predicate Facing(n: nat, m: nat, d: nat, i: int, e: nat, j: int) {
    InRange(n, m, d, i) && InRange(n, m, e, j) && 2 * i - d + 2 * j - e == n - m
  }

  predicate ApartOn(n: nat, m: nat, r: Reach, d: nat, i: int, s: Reach, e: nat, j: int) {
    Facing(n, m, d, i, e, j) ==> r(d, i) + s(e, j) < n
  }

  /** No path from the start has met one from the end. */
  ghost predicate Apart(n: nat, m: nat, r: Reach, d: nat, s: Reach, e: nat) {
    forall i, j :: ApartOn(n, m, r, d, i, s, e, j)
  }

  lemma ApartMirrored(n: nat, m: nat, r: Reach, d: nat, s: Reach, e: nat)
    requires Apart(n, m, r, d, s, e)
    ensures Apart(n, m, s, e, r, d)
  {
    forall i, j
      ensures ApartOn(n, m, s, e, j, r, d, i)
    {
      assert ApartOn(n, m, r, d, i, s, e, j);
    }
  }

  /** The two searches of one pair of files. */
  ghost predicate Both(a: seq<Token>, b: seq<Token>, r: Reach, s: Reach) {
    Furthest(a, b, r) && Furthest(Mirror(a), Mirror(b), s)
  }

  lemma BothMirrored(a: seq<Token>, b: seq<Token>, r: Reach, s: Reach)
    requires Both(a, b, r, s)
    ensures Both(Mirror(a), Mirror(b), s, r)
  {
    assert Mirror(Mirror(a)) == a && Mirror(Mirror(b)) == b;
  }

  /** A path that has not met the one it faces is inside the box and not on its far edges. */
  lemma Inside(a: seq<Token>, b: seq<Token>, r: Reach, d: nat, i: int, s: Reach, e: nat, j: int)
    requires Both(a, b, r, s) && Facing(|a|, |b|, d, i, e, j) && ApartOn(|a|, |b|, r, d, i, s, e, j)
    ensures r(d, i) < |a| && r(d, i) - (2 * i - d) < |b|
  {
    ReachLow(Mirror(a), Mirror(b), s, e, j);
  }

  /** The searches take turns, so that they are on the same diagonals when they are compared. */
  predicate Turns(n: nat, m: nat, d: nat, e: nat, half: int) {
    d > 0 && (e == d || e == d - 1) && 2 * half == n - m + d + e
  }

  /** Before the paths meet, the next edit does not lead out of the box. */
  lemma NextInsideRight(a: seq<Token>, b: seq<Token>, r: Reach, d: nat, i: int, s: Reach, e: nat, j: int)
    requires Both(a, b, r, s) && d > 0 && e > 0 && Facing(|a|, |b|, d, i, e, j) && Apart(|a|, |b|, r, d - 1, s, e - 1)
    requires 2 * i - d >= |a| - |b|
    ensures Start(|a|, |b|, r, d, i) <= |a|
  {
    if Start(|a|, |b|, r, d, i) > |a| {
      FromRight(a, b, r, d, i);
      assert ApartOn(|a|, |b|, r, d - 1, i - 1, s, e - 1, j);
      Inside(a, b, r, d - 1, i - 1, s, e - 1, j);
    }
  }

  lemma NextInsideBottom(a: seq<Token>, b: seq<Token>, r: Reach, d: nat, i: int, s: Reach, e: nat, j: int)
    requires Both(a, b, r, s) && d > 0 && e > 0 && Facing(|a|, |b|, d, i, e, j) && Apart(|a|, |b|, r, d - 1, s, e - 1)
    requires 2 * i - d <= |a| - |b|
    ensures Start(|a|, |b|, r, d, i) - (2 * i - d) <= |b|
  {
    if Start(|a|, |b|, r, d, i) - (2 * i - d) > |b| {
      FromBottom(a, b, r, d, i);
      assert ApartOn(|a|, |b|, r, d - 1, i, s, e - 1, j - 1);
      Inside(a, b, r, d - 1, i, s, e - 1, j - 1);
    }
  }

  lemma {:induction false} SnakeMissesCorner(a: seq<Token>, b: seq<Token>, x: int, y: int)
    requires a != [] && b != [] && a[|a| - 1] != b[|b| - 1] && x < |a| && x - y == |a| - |b|
    ensures x + SnakeLength(a, b, x, y) < |a|
    decreases |a| - x
  {
    if 0 <= x < |a| && 0 <= y < |b| && a[x] == b[y] { SnakeMissesCorner(a, b, x + 1, y + 1); }
  }

  /** While paths with one edit less have not met those with an odd number of edits, none reaches the far corner. */
  lemma MissesCorner(a: seq<Token>, b: seq<Token>, r: Reach, d: nat, i: int, s: Reach, e: nat, f: nat)
    requires Both(a, b, r, s) && a[|a| - 1] != b[|b| - 1] && d > 0 && InRange(|a|, |b|, d, i) && 2 * i - d == |a| - |b|
    requires e == 2 * f + 1 && Apart(|a|, |b|, r, d - 1, s, e)
    ensures r(d, i) < |a|
  {
    var x := Start(|a|, |b|, r, d, i);
    assert FurthestAt(a, b, r, d, i);
    StartFrom(|a|, |b|, r, d, i);
    assert ApartOn(|a|, |b|, r, d - 1, i - 1, s, e, f + 1) && ApartOn(|a|, |b|, r, d - 1, i, s, e, f);
    if InRange(|a|, |b|, d - 1, i - 1) { Inside(a, b, r, d - 1, i - 1, s, e, f + 1); }
    if InRange(|a|, |b|, d - 1, i) { Inside(a, b, r, d - 1, i, s, e, f); }
    SnakeMissesCorner(a, b, x, x - (2 * i - d));
  }

  /** A point that divides the box into two smaller ones. */
  predicate Divides(n: nat, m: nat, x: int, y: int) {
    0 <= x <= n && 0 <= y <= m && 0 < x + y < n + m
  }

  /** The end of a path that stays in the box and misses its far corner divides the box. */
  lemma PathDivides(a: seq<Token>, b: seq<Token>, r: Reach, d: nat, i: int)
    requires Furthest(a, b, r) && d > 0 && InRange(|a|, |b|, d, i)
    requires Start(|a|, |b|, r, d, i) <= |a| && Start(|a|, |b|, r, d, i) - (2 * i - d) <= |b|
    requires 2 * i - d == |a| - |b| ==> r(d, i) < |a|
    ensures Divides(|a|, |b|, r(d, i), r(d, i) - (2 * i - d))
  {
    ReachLow(a, b, r, d, i);
    assert FurthestAt(a, b, r, d, i);
  }

  lemma FirstDivides(a: seq<Token>, b: seq<Token>, r: Reach, i: int)
    requires Furthest(a, b, r) && a[|a| - 1] != b[|b| - 1] && InRange(|a|, |b|, 1, i)
    ensures Divides(|a|, |b|, r(1, i), r(1, i) - (2 * i - 1))
  {
    assert FurthestAt(a, b, r, 0, 0) && FurthestAt(a, b, r, 1, i);
    assert Start(|a|, |b|, r, 1, i) == i;
    if 2 * i - 1 == |a| - |b| { SnakeMissesCorner(a, b, i, 1 - i); }
    PathDivides(a, b, r, 1, i);
  }

  /** What a path reaches where it faces another, if none have met before, divides the box. */
  lemma ReachDivides(a: seq<Token>, b: seq<Token>, r: Reach, d: nat, i: int, s: Reach, e: nat, j: int)
    requires Both(a, b, r, s) && a[|a| - 1] != b[|b| - 1] && d > 0 && (e == d || e == d - 1)
    requires Facing(|a|, |b|, d, i, e, j) && (e > 0 ==> Apart(|a|, |b|, r, d - 1, s, e - 1))
    ensures Divides(|a|, |b|, r(d, i), r(d, i) - (2 * i - d))
  {
    if e == 0 {
      FirstDivides(a, b, r, i);
    } else {
      if 2 * i - d >= |a| - |b| { NextInsideRight(a, b, r, d, i, s, e, j); }
      if 2 * i - d <= |a| - |b| { NextInsideBottom(a, b, r, d, i, s, e, j); }
      if 2 * i - d == |a| - |b| { MissesCorner(a, b, r, d, i, s, e - 1, j - 1); }
      PathDivides(a, b, r, d, i);
    }
  }

  /** The paths meet before there are as many edits as tokens. */
  lemma MeetsInTime(a: seq<Token>, b: seq<Token>, r: Reach, d: nat, s: Reach, e: nat, half: int)
    requires Both(a, b, r, s) && Turns(|a|, |b|, d, e, half) && Apart(|a|, |b|, r, d, s, e)
    ensures d < |a| + |b|
  {
    if d >= |a| + |b| {
      var i := (d + 1) / 2;
      assert ApartOn(|a|, |b|, r, d, i, s, e, half - i);
      Inside(a, b, r, d, i, s, e, half - i);
      ReachLow(a, b, r, d, i);
    }
  }

  function FurthestOf(a: seq<Token>, b: seq<Token>, d: nat, i: int): int
    decreases d
  {
    if d == 0 then 0
    else
      var removed, added := FurthestOf(a, b, d - 1, i - 1), FurthestOf(a, b, d - 1, i);
      var x :=
        if !InRange(|a|, |b|, d - 1, i - 1) then added
        else if !InRange(|a|, |b|, d - 1, i) || removed >= added then removed + 1
        else added;
      x + SnakeLength(a, b, x, x - (2 * i - d))
  }

  /** There are furthest reaching paths. */
  lemma FurthestExists(a: seq<Token>, b: seq<Token>) returns (r: Reach)
    requires a != [] && b != []
    ensures Furthest(a, b, r)
  {
    r := (d: nat, i: int) => FurthestOf(a, b, d, i);
  }
}
