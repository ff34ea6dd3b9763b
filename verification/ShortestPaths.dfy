/**
 * Why Myers' search finds shortest paths: a furthest reaching path with `d` edits gets at least as far as every path
 * with that many edits, so two of them meet as soon as there is a path with as many edits as they have together.
 */
module ShortestPaths {
  import opened DiffMarks
  import opened EditDistance
  import opened FurthestPaths

  /** The number of edits between the first `x` tokens of one file and the first `y` of the other. */
  function Edits(a: seq<Token>, b: seq<Token>, x: int, y: int): int
    requires 0 <= x <= |a| && 0 <= y <= |b|
  {
    x + y - 2 * Lcs(a, 0, x, b, 0, y)
  }

  lemma {:induction false} LcsShort(a: seq<Token>, b: seq<Token>, x: nat, y: nat)
    requires x <= |a| && y <= |b|
    ensures Lcs(a, 0, x, b, 0, y) <= x && Lcs(a, 0, x, b, 0, y) <= y
    decreases x + y
  {
    if x > 0 && y > 0 {
      LcsShort(a, b, x - 1, y - 1);
      LcsShort(a, b, x - 1, y);
      LcsShort(a, b, x, y - 1);
      LcsGrows(a, 0, x, b, 0, y);
    }
  }

  /** How the number of edits changes from one place to the next. */
  lemma EditsStep(a: seq<Token>, b: seq<Token>, x: nat, y: nat)
    requires x <= |a| && y <= |b|
    ensures Edits(a, b, x, y) >= 0 && Edits(a, b, x, y) >= x - y && Edits(a, b, x, y) >= y - x
    ensures x > 0 ==> Edits(a, b, x, y) <= Edits(a, b, x - 1, y) + 1
    ensures y > 0 ==> Edits(a, b, x, y) <= Edits(a, b, x, y - 1) + 1
    ensures x > 0 && y > 0 ==> Edits(a, b, x - 1, y - 1) <= Edits(a, b, x, y)
    ensures x > 0 && y > 0 && a[x - 1] == b[y - 1] ==> Edits(a, b, x, y) == Edits(a, b, x - 1, y - 1)
    ensures x + y > 0 && !(x > 0 && y > 0 && a[x - 1] == b[y - 1]) ==>
              || (x > 0 && Edits(a, b, x, y) == Edits(a, b, x - 1, y) + 1)
              || (y > 0 && Edits(a, b, x, y) == Edits(a, b, x, y - 1) + 1)
  {
    LcsShort(a, b, x, y);
    LcsGrows(a, 0, x, b, 0, y);
    if x > 0 && y > 0 {
      LcsGrows(a, 0, x, b, 0, y - 1);
      LcsGrows(a, 0, x - 1, b, 0, y);
    }
  }

  /** Along a diagonal, the number of edits never falls. */
  lemma {:induction false} EditsAlong(a: seq<Token>, b: seq<Token>, x: nat, y: nat, n: nat)
    requires x + n <= |a| && y + n <= |b|
    ensures Edits(a, b, x, y) <= Edits(a, b, x + n, y + n)
    decreases n
  {
    if n > 0 {
      EditsAlong(a, b, x, y, n - 1);
      EditsStep(a, b, x + n, y + n);
    }
  }

  /** Along a snake, it stays the same. */
  lemma {:induction false} EditsOnSnake(a: seq<Token>, b: seq<Token>, x: nat, y: nat)
    requires x <= |a| && y <= |b|
    ensures var n := SnakeLength(a, b, x, y); Edits(a, b, x + n, y + n) == Edits(a, b, x, y)
    decreases |a| - x
  {
    if x < |a| && y < |b| && a[x] == b[y] {
      EditsStep(a, b, x + 1, y + 1);
      EditsOnSnake(a, b, x + 1, y + 1);
    }
  }

  lemma {:induction false} SnakeIsMaximal(a: seq<Token>, b: seq<Token>, x: int, y: int)
    requires 0 <= x && 0 <= y
    ensures var n := SnakeLength(a, b, x, y); x + n < |a| && y + n < |b| ==> a[x + n] != b[y + n]
    decreases |a| - x
  {
    if x < |a| && y < |b| && a[x] == b[y] { SnakeIsMaximal(a, b, x + 1, y + 1); }
  }

  lemma {:induction false} NoEdits(a: seq<Token>, b: seq<Token>, x: nat, y: nat)
    requires 0 < x <= |a| && y <= |b| && Edits(a, b, x, y) == 0
    ensures b != [] && a[0] == b[0]
    decreases x
  {
    EditsStep(a, b, x, y);
    EditsStep(a, b, x - 1, y);
    if y > 0 { EditsStep(a, b, x, y - 1); }
    if x > 1 { NoEdits(a, b, x - 1, y - 1); }
  }

  /** A furthest reaching path gets at least as far as any other with as many edits. */
  lemma {:induction false} ReachComplete(a: seq<Token>, b: seq<Token>, r: Reach, d: nat, i: int, x: nat, y: nat)
    requires Furthest(a, b, r) && a[0] != b[0] && x <= |a| && y <= |b| && x - y == 2 * i - d && Edits(a, b, x, y) <= d
    ensures InRange(|a|, |b|, d, i) && r(d, i) >= x
    decreases x + y
  {
    EditsStep(a, b, x, y);
    assert InRange(|a|, |b|, d, i);
    assert FurthestAt(a, b, r, d, i);
    ReachLow(a, b, r, d, i);
    if x == 0 {
    } else if d == 0 {
      NoEdits(a, b, x, y);
    } else if y > 0 && a[x - 1] == b[y - 1] {
      ReachComplete(a, b, r, d, i, x - 1, y - 1);
      var s := Start(|a|, |b|, r, d, i);
      SnakeIsMaximal(a, b, s, s - (2 * i - d));
    } else if Edits(a, b, x, y) == Edits(a, b, x - 1, y) + 1 {
      ReachComplete(a, b, r, d - 1, i - 1, x - 1, y);
      StartFrom(|a|, |b|, r, d, i);
    } else {
      ReachComplete(a, b, r, d - 1, i, x, y - 1);
      StartFrom(|a|, |b|, r, d, i);
    }
  }

  /** Where a path is inside the box, it needs no more edits than it has. */
  lemma {:induction false} ReachSound(a: seq<Token>, b: seq<Token>, r: Reach, d: nat, i: int)
    requires Furthest(a, b, r) && InRange(|a|, |b|, d, i) && r(d, i) <= |a| && r(d, i) - (2 * i - d) <= |b|
    ensures 0 <= r(d, i) && 0 <= r(d, i) - (2 * i - d) && Edits(a, b, r(d, i), r(d, i) - (2 * i - d)) <= d
    decreases d, 1
  {
    ReachLow(a, b, r, d, i);
    assert FurthestAt(a, b, r, d, i);
    if d > 0 {
      var x := Start(|a|, |b|, r, d, i);
      StartSound(a, b, r, d, i, x);
      EditsOnSnake(a, b, x, x - (2 * i - d));
    }
  }

  /** Before its snake, a path is one edit behind the path it goes on from. */
  lemma {:induction false} StartSound(a: seq<Token>, b: seq<Token>, r: Reach, d: nat, i: int, x: int)
    requires Furthest(a, b, r) && d > 0 && InRange(|a|, |b|, d, i) && x == Start(|a|, |b|, r, d, i)
    requires x <= |a| && x - (2 * i - d) <= |b|
    ensures 0 <= x && 0 <= x - (2 * i - d) && Edits(a, b, x, x - (2 * i - d)) <= d
    decreases d, 0
  {
    StartFrom(|a|, |b|, r, d, i);
    if InRange(|a|, |b|, d - 1, i - 1) && x == r(d - 1, i - 1) + 1 {
      ReachSound(a, b, r, d - 1, i - 1);
    } else {
      ReachLow(a, b, r, d - 1, i);
      ReachSound(a, b, r, d - 1, i);
    }
    EditsStep(a, b, x, x - (2 * i - d));
  }

  /** The number of edits behind a place. */
  function EditsBehind(a: seq<Token>, b: seq<Token>, x: int, y: int): int
    requires 0 <= x <= |a| && 0 <= y <= |b|
  {
    (|a| - x) + (|b| - y) - 2 * Lcs(a, x, |a|, b, y, |b|)
  }

  lemma EditsMirrored(a: seq<Token>, b: seq<Token>, x: int, y: int)
    requires 0 <= x <= |a| && 0 <= y <= |b|
    ensures Edits(Mirror(a), Mirror(b), |a| - x, |b| - y) == EditsBehind(a, b, x, y)
  {
    LcsMirrored(a, x, |a|, b, y, |b|);
  }

  /** A place on a shortest path. */
  predicate OnShortest(a: seq<Token>, b: seq<Token>, x: int, y: int) {
    0 <= x <= |a| && 0 <= y <= |b| && Edits(a, b, x, y) + EditsBehind(a, b, x, y) == Edits(a, b, |a|, |b|)
  }

  lemma OnShortestMirrored(a: seq<Token>, b: seq<Token>, x: int, y: int)
    requires OnShortest(Mirror(a), Mirror(b), x, y)
    ensures OnShortest(a, b, |a| - x, |b| - y)
  {
    var p, q := Mirror(a), Mirror(b);
    assert Mirror(p) == a && Mirror(q) == b;
    EditsMirrored(a, b, |a| - x, |b| - y);
    EditsMirrored(p, q, x, y);
    EditsMirrored(a, b, 0, 0);
  }

  /** No way is shorter. */
  lemma NoShortcut(a: seq<Token>, b: seq<Token>, x: nat, y: nat)
    requires x <= |a| && y <= |b|
    ensures Edits(a, b, x, y) + EditsBehind(a, b, x, y) >= Edits(a, b, |a|, |b|)
  {
    LcsJoins(a, 0, x, |a|, b, 0, y, |b|);
  }

  /** From a place on a shortest path there is a way back along it. */
  lemma StepBack(a: seq<Token>, b: seq<Token>, x: nat, y: nat) returns (x': nat, y': nat)
    requires OnShortest(a, b, x, y) && x + y > 0
    ensures OnShortest(a, b, x', y') && x' + y' < x + y
    ensures Edits(a, b, x, y) - 1 <= Edits(a, b, x', y') <= Edits(a, b, x, y)
  {
    EditsStep(a, b, x, y);
    if x > 0 && y > 0 && a[x - 1] == b[y - 1] {
      x', y' := x - 1, y - 1;
    } else if x > 0 && Edits(a, b, x, y) == Edits(a, b, x - 1, y) + 1 {
      x', y' := x - 1, y;
    } else {
      x', y' := x, y - 1;
    }
    LcsInFront(a, x', |a|, b, y', |b|);
    NoShortcut(a, b, x', y');
  }

  /** A shortest path passes through every number of edits up to its own. */
  lemma {:induction false} PassesThrough(a: seq<Token>, b: seq<Token>, f: nat, x: nat, y: nat)
    returns (x': nat, y': nat)
    requires OnShortest(a, b, x, y) && f <= Edits(a, b, x, y)
    ensures OnShortest(a, b, x', y') && Edits(a, b, x', y') == f
    decreases x + y
  {
    if Edits(a, b, x, y) == f {
      x', y' := x, y;
    } else {
      x', y' := StepBack(a, b, x, y);
      x', y' := PassesThrough(a, b, f, x', y');
    }
  }

  /** Furthest reaching paths meet, or have met, at every place that both have enough edits for. */
  lemma MetThere(a: seq<Token>, b: seq<Token>, r: Reach, d: nat, i: int, s: Reach, e: nat, j: int, x: nat, y: nat)
    requires Both(a, b, r, s) && a[0] != b[0] && a[|a| - 1] != b[|b| - 1] && x <= |a| && y <= |b|
    requires Edits(a, b, x, y) <= d && EditsBehind(a, b, x, y) <= e
    requires x - y == 2 * i - d && 2 * i - d + 2 * j - e == |a| - |b|
    ensures !ApartOn(|a|, |b|, r, d, i, s, e, j)
  {
    ReachComplete(a, b, r, d, i, x, y);
    EditsMirrored(a, b, x, y);
    ReachComplete(Mirror(a), Mirror(b), s, e, j, |a| - x, |b| - y);
  }

  /** As long as paths have not met, there is no path with as many edits as they have together. */
  lemma ApartIsShort(a: seq<Token>, b: seq<Token>, r: Reach, d: nat, s: Reach, e: nat, half: int)
    requires Both(a, b, r, s) && a[0] != b[0] && a[|a| - 1] != b[|b| - 1]
    requires 2 * half == |a| - |b| + d + e && Apart(|a|, |b|, r, d, s, e)
    ensures Edits(a, b, |a|, |b|) > d + e
  {
    var total := Edits(a, b, |a|, |b|);
    EditsStep(a, b, |a|, |b|);
    if total <= d + e {
      if total == 0 { NoEdits(a, b, |a|, |b|); }
      var t: nat := if total >= d then 0 else (d - total + 1) / 2;
      var x, y := PassesThrough(a, b, d - 2 * t, |a|, |b|);
      var i := Lcs(a, 0, x, b, 0, y) - y + d - t;
      MetThere(a, b, r, d, i, s, e, half - i, x, y);
    }
  }

  /** Where the paths meet first is on a shortest path. */
  lemma MeetingIsShortest(a: seq<Token>, b: seq<Token>, r: Reach, d: nat, i: int, s: Reach, e: nat, j: int, half: int)
    requires Both(a, b, r, s) && a[0] != b[0] && a[|a| - 1] != b[|b| - 1] && Turns(|a|, |b|, d, e, half)
    requires Facing(|a|, |b|, d, i, e, j) && r(d, i) + s(e, j) >= |a| && (e > 0 ==> Apart(|a|, |b|, r, d - 1, s, e - 1))
    ensures OnShortest(a, b, r(d, i), r(d, i) - (2 * i - d))
  {
    ReachDivides(a, b, r, d, i, s, e, j);
    var x, y := r(d, i), r(d, i) - (2 * i - d);
    ReachSound(a, b, r, d, i);
    OtherEdits(a, b, r, d, i, s, e, j);
    NoShortcut(a, b, x, y);
    NothingShorter(a, b, r, d, s, e, half);
  }

  /** Before the first meeting, the edits of both paths together are needed. */
  lemma NothingShorter(a: seq<Token>, b: seq<Token>, r: Reach, d: nat, s: Reach, e: nat, half: int)
    requires Both(a, b, r, s) && a[0] != b[0] && a[|a| - 1] != b[|b| - 1] && Turns(|a|, |b|, d, e, half)
    requires d > 0 && (e > 0 ==> Apart(|a|, |b|, r, d - 1, s, e - 1))
    ensures Edits(a, b, |a|, |b|) >= d + e
  {
    EditsStep(a, b, |a|, |b|);
    if e > 0 {
      ApartIsShort(a, b, r, d - 1, s, e - 1, half - 1);
    } else if Edits(a, b, |a|, |b|) == 0 {
      NoEdits(a, b, |a|, |b|);
    }
  }

  /** The other path stays in the box as well, and reaches back far enough. */
  lemma OtherEdits(a: seq<Token>, b: seq<Token>, r: Reach, d: nat, i: int, s: Reach, e: nat, j: int)
    requires Both(a, b, r, s) && d > 0 && Facing(|a|, |b|, d, i, e, j) && r(d, i) + s(e, j) >= |a|
    requires 0 <= r(d, i) <= |a| && 0 <= r(d, i) - (2 * i - d) <= |b| && (e > 0 ==> Apart(|a|, |b|, r, d - 1, s, e - 1))
    ensures EditsBehind(a, b, r(d, i), r(d, i) - (2 * i - d)) <= e
  {
    var p, q := Mirror(a), Mirror(b);
    var x, y := r(d, i), r(d, i) - (2 * i - d);
    var u, v := s(e, j), s(e, j) - (2 * j - e);
    OtherInside(a, b, r, d, i, s, e, j);
    ReachSound(p, q, s, e, j);
    EditsAlong(p, q, |a| - x, |b| - y, u - (|a| - x));
    EditsMirrored(a, b, x, y);
  }

  lemma OtherInside(a: seq<Token>, b: seq<Token>, r: Reach, d: nat, i: int, s: Reach, e: nat, j: int)
    requires Both(a, b, r, s) && d > 0 && Facing(|a|, |b|, d, i, e, j)
          && (e > 0 ==> Apart(|a|, |b|, r, d - 1, s, e - 1))
    ensures s(e, j) <= |a| && s(e, j) - (2 * j - e) <= |b|
  {
    var p, q := Mirror(a), Mirror(b);
    assert FurthestAt(p, q, s, e, j);
    if e > 0 {
      BothMirrored(a, b, r, s);
      ApartMirrored(|a|, |b|, r, d - 1, s, e - 1);
      if 2 * j - e >= |a| - |b| { NextInsideRight(p, q, s, e, j, r, d, i); }
      if 2 * j - e <= |a| - |b| { NextInsideBottom(p, q, s, e, j, r, d, i); }
    }
  }
}
