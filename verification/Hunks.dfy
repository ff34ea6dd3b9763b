/**
 * `HunkIter` of `gix-imara-diff/src/lib.rs`: the markers of a diff read off as hunks, and what a valid diff is
 * for: replacing the hunks in the old file gives the new one.
 */
module Hunks {
  import opened DiffMarks
  import opened Wrappers

  /** The end of the run of markers that starts at `i`. */
  function Lead(m: seq<bool>, i: nat): (e: nat)
    requires i <= |m|
    ensures i <= e <= |m| && AllMarked(m, i, e) && (e == |m| || !m[e])
    decreases |m| - i
  {
    if i < |m| && m[i] then Lead(m, i + 1) else i
  }

  function Past(m: seq<bool>, e: nat): (r: nat)
    requires e <= |m|
    ensures e <= r <= |m|
  {
    if e < |m| then e + 1 else e
  }

  /** The hunks yet to come when the iterators stand at `i`, `j` and the positions are `pb`, `pa`. */
  function HunksFrom(removed: seq<bool>, added: seq<bool>, i: nat, j: nat, pb: nat, pa: nat): seq<Hunk>
    requires i <= |removed| && j <= |added|
    decreases (|removed| - i) + (|added| - j)
  {
    var re, ae := Lead(removed, i), Lead(added, j);
    if re != i || ae != j then
      [Hunk(pb, pb + (re - i), pa, pa + (ae - j))]
      + HunksFrom(removed, added, Past(removed, re), Past(added, ae), pb + (re - i) + 1, pa + (ae - j) + 1)
    else if i == |removed| && j == |added| then []
    else HunksFrom(removed, added, Past(removed, re), Past(added, ae), pb + 1, pa + 1)
  }

  /** One round: a hunk, the end, or two unchanged elements. */
  lemma ComingNext(removed: seq<bool>, added: seq<bool>, i: nat, j: nat, pb: nat, pa: nat,
                   r: nat, i': nat, a: nat, j': nat)
    requires i <= |removed| && j <= |added|
    requires r == Lead(removed, i) - i && i' == Past(removed, Lead(removed, i))
    requires a == Lead(added, j) - j && j' == Past(added, Lead(added, j))
    ensures var coming := HunksFrom(removed, added, i, j, pb, pa);
            if r != 0 || a != 0 then
              coming == [Hunk(pb, pb + r, pa, pa + a)] + HunksFrom(removed, added, i', j', pb + r + 1, pa + a + 1)
            else if i == |removed| && j == |added| then coming == []
            else coming == HunksFrom(removed, added, i', j', pb + 1, pa + 1)
    ensures i' <= |removed| && j' <= |added|
    ensures i < |removed| || j < |added| ==> (|removed| - i') + (|added| - j') < (|removed| - i) + (|added| - j)
  {}

  class HunkIter {
    const removed: seq<bool>
    const added: seq<bool>
    var atRemoved: nat
    var atAdded: nat
    var posBefore: nat
    var posAfter: nat

    constructor (removed: seq<bool>, added: seq<bool>)
      ensures Valid() && this.removed == removed && this.added == added
      ensures Coming() == HunksFrom(removed, added, 0, 0, 0, 0)
    {
      this.removed, this.added := removed, added;
      atRemoved, atAdded, posBefore, posAfter := 0, 0, 0, 0;
    }

    ghost predicate Valid()
      reads this
    {
      atRemoved <= |removed| && atAdded <= |added|
    }

    ghost function Coming(): seq<Hunk>
      requires Valid()
      reads this
    {
      HunksFrom(removed, added, atRemoved, atAdded, posBefore, posAfter)
    }

    /** Count the marked elements in front of the iterator and take them together with the one behind them. */
    method TakeWhile(m: seq<bool>, at: nat) returns (count: nat, next: nat)
      requires at <= |m|
      ensures count == Lead(m, at) - at && next == Past(m, Lead(m, at))
    {
      next := at;
      while next < |m| && m[next]
        invariant at <= next <= |m| && Lead(m, at) == Lead(m, next)
      {
        next := next + 1;
      }
      count := next - at;
      if next < |m| { next := next + 1; }
    }

    ghost function Ahead(): nat
      requires Valid()
      reads this
    {
      (|removed| - atRemoved) + (|added| - atAdded)
    }

    /** One round, at the end of which there may be a hunk. */
    method Round() returns (done: bool, r: Option<Hunk>)
      requires Valid()
      modifies this
      ensures Valid() && (if done then r.None? && Ahead() == old(Ahead()) else Ahead() < old(Ahead()))
      ensures if r.Some? then old(Coming()) == [r.value] + Coming() else Coming() == old(Coming())
      ensures done ==> Coming() == []
    {
      var r', r1 := TakeWhile(removed, atRemoved);
      var a', a1 := TakeWhile(added, atAdded);
      ComingNext(removed, added, atRemoved, atAdded, posBefore, posAfter, r', r1, a', a1);
      if r' == 0 && a' == 0 && atRemoved == |removed| && atAdded == |added| { return true, None; }
      done, r := false, if r' == 0 && a' == 0 then None
                        else Some(Hunk(posBefore, posBefore + r', posAfter, posAfter + a'));
      atRemoved, atAdded := r1, a1;
      posBefore, posAfter := posBefore + r' + 1, posAfter + a' + 1;
    }

    method Next() returns (r: Option<Hunk>)
      requires Valid()
      modifies this
      ensures Valid()
      ensures if r.Some? then old(Coming()) == [r.value] + Coming() else old(Coming()) == [] == Coming()
    {
      var done := false;
      r := None;
      while !done && r.None?
        invariant Valid() && (done ==> Coming() == [] && r.None?)
        invariant if r.Some? then old(Coming()) == [r.value] + Coming() else Coming() == old(Coming())
        decreases Ahead() + if done then 0 else 1
      {
        done, r := Round();
      }
    }
  }

  /** Hunks in the order of both files, with at least one unchanged token between them. */
  ghost predicate Ordered(hs: seq<Hunk>, i: nat, j: nat, n: nat, m: nat)
    decreases |hs|
  {
    hs != [] ==>
      && i <= hs[0].beforeStart <= hs[0].beforeEnd <= n && j <= hs[0].afterStart <= hs[0].afterEnd <= m
      && Ordered(hs[1..], hs[0].beforeEnd + 1, hs[0].afterEnd + 1, n, m)
  }

  /** Replace the hunks in `before[from..]` by what `after` has in their place. */
  function Apply<T>(before: seq<T>, after: seq<T>, hs: seq<Hunk>, from: nat): seq<T>
    decreases |hs|
  {
    if hs == [] then (if from <= |before| then before[from..] else [])
    else
      var h := hs[0];
      (if from <= h.beforeStart <= |before| then before[from..h.beforeStart] else [])
      + (if h.afterStart <= h.afterEnd <= |after| then after[h.afterStart..h.afterEnd] else [])
      + Apply(before, after, hs[1..], h.beforeEnd)
  }

  /** An unchanged token in front of all hunks. */
  lemma ApplyUnchanged(before: seq<Token>, after: seq<Token>, hs: seq<Hunk>, i: nat, j: nat)
    requires i < |before| && Ordered(hs, i + 1, j, |before|, |after|)
    ensures Apply(before, after, hs, i) == [before[i]] + Apply(before, after, hs, i + 1)
  {
    if hs == [] {
      assert before[i..] == [before[i]] + before[i + 1..];
    } else {
      var h := hs[0];
      assert before[i..h.beforeStart] == [before[i]] + before[i + 1..h.beforeStart];
      InFront(before[i], before[i + 1..h.beforeStart], after[h.afterStart..h.afterEnd],
              Apply(before, after, hs[1..], h.beforeEnd));
    }
  }

  lemma InFront<T>(x: T, a: seq<T>, b: seq<T>, c: seq<T>)
    ensures ([x] + a) + b + c == [x] + (a + b + c)
  {}

  lemma SameHeads(a: Token, x: seq<Token>, b: Token, y: seq<Token>)
    requires [a] + x == [b] + y
    ensures a == b && x == y
  {
    assert ([a] + x)[0] == a && ([b] + y)[0] == b;
    assert ([a] + x)[1..] == x && ([b] + y)[1..] == y;
  }

  /** The first unmarked tokens behind two runs are the same, and so is everything kept behind them. */
  lemma KeptHeads(before: seq<Token>, removed: seq<bool>, i: nat, after: seq<Token>, added: seq<bool>, j: nat)
    requires i <= |before| == |removed| && j <= |after| == |added|
    requires KeptIn(before, removed, i, |before|) == KeptIn(after, added, j, |after|)
    ensures var re, ae := Lead(removed, i), Lead(added, j);
            if re == |before| then ae == |after|
            else ae < |after| && before[re] == after[ae]
                 && KeptIn(before, removed, re + 1, |before|) == KeptIn(after, added, ae + 1, |after|)
  {
    var re, ae := Lead(removed, i), Lead(added, j);
    KeptBehindRun(before, removed, i);
    KeptBehindRun(after, added, j);
    if re < |before| && ae < |after| {
      SameHeads(before[re], KeptIn(before, removed, re + 1, |before|), after[ae],
                KeptIn(after, added, ae + 1, |after|));
    }
  }

  lemma KeptBehindRun(tokens: seq<Token>, m: seq<bool>, i: nat)
    requires i <= |tokens| == |m|
    ensures KeptIn(tokens, m, i, |m|) == KeptIn(tokens, m, Lead(m, i), |m|)
  {
    KeptJoin(tokens, m, i, Lead(m, i), |m|);
    KeptNone(tokens, m, i, Lead(m, i));
  }

  /** Applied to `before[i..]`, the hunks give `after[j..]`. */
  ghost predicate Rebuilds(before: seq<Token>, i: nat, after: seq<Token>, j: nat, hs: seq<Hunk>) {
    i <= |before| && j <= |after| && Ordered(hs, i, j, |before|, |after|) && Apply(before, after, hs, i) == after[j..]
  }

  lemma {:induction false} RebuildsFrom(before: seq<Token>, removed: seq<bool>, i: nat, after: seq<Token>,
                                        added: seq<bool>, j: nat)
    requires i <= |before| == |removed| && j <= |after| == |added|
    requires KeptIn(before, removed, i, |before|) == KeptIn(after, added, j, |after|)
    ensures Rebuilds(before, i, after, j, HunksFrom(removed, added, i, j, i, j))
    decreases (|before| - i) + (|after| - j)
  {
    var re, ae := Lead(removed, i), Lead(added, j);
    KeptHeads(before, removed, i, after, added, j);
    if re == |before| {
      RebuildsEnd(before, removed, i, after, added, j);
    } else {
      RebuildsFrom(before, removed, re + 1, after, added, ae + 1);
      HunksStep(removed, added, i, j);
      var rest := HunksFrom(removed, added, re + 1, ae + 1, re + 1, ae + 1);
      RebuildsStep(before, i, re, after, j, ae, rest, HunksFrom(removed, added, i, j, i, j));
    }
  }

  lemma RebuildsEnd(before: seq<Token>, removed: seq<bool>, i: nat, after: seq<Token>, added: seq<bool>, j: nat)
    requires i <= |before| == |removed| && j <= |after| == |added|
    requires Lead(removed, i) == |removed| && Lead(added, j) == |added|
    ensures Rebuilds(before, i, after, j, HunksFrom(removed, added, i, j, i, j))
  {
    HunksEnd(removed, added, i, j);
    if i < |before| || j < |after| { RebuildsHunk(before, after, [Hunk(i, |before|, j, |after|)]); }
  }

  /** From behind the unchanged tokens at `re` and `ae` back to `i` and `j`. */
  lemma RebuildsStep(before: seq<Token>, i: nat, re: nat, after: seq<Token>, j: nat, ae: nat, rest: seq<Hunk>,
                     hs: seq<Hunk>)
    requires i <= re < |before| && j <= ae < |after| && before[re] == after[ae]
    requires Rebuilds(before, re + 1, after, ae + 1, rest)
    requires hs == if re != i || ae != j then [Hunk(i, re, j, ae)] + rest else rest
    ensures Rebuilds(before, i, after, j, hs)
  {
    RebuildsUnchanged(before, re, after, ae, rest);
    if re != i || ae != j {
      assert hs[1..] == rest;
      RebuildsHunk(before, after, hs);
    }
  }

  lemma HunksEnd(removed: seq<bool>, added: seq<bool>, i: nat, j: nat)
    requires i <= |removed| && j <= |added| && Lead(removed, i) == |removed| && Lead(added, j) == |added|
    ensures HunksFrom(removed, added, i, j, i, j) ==
              if i == |removed| && j == |added| then [] else [Hunk(i, |removed|, j, |added|)]
  {
    assert HunksFrom(removed, added, |removed|, |added|, |removed| + 1, |added| + 1) == [];
  }

  lemma HunksStep(removed: seq<bool>, added: seq<bool>, i: nat, j: nat)
    requires i <= |removed| && j <= |added| && Lead(removed, i) < |removed| && Lead(added, j) < |added|
    ensures var re, ae := Lead(removed, i), Lead(added, j);
            var rest := HunksFrom(removed, added, re + 1, ae + 1, re + 1, ae + 1);
            HunksFrom(removed, added, i, j, i, j) == if re != i || ae != j then [Hunk(i, re, j, ae)] + rest else rest
  {
    var re, ae := Lead(removed, i), Lead(added, j);
    assert Past(removed, re) == re + 1 && Past(added, ae) == ae + 1;
    assert i + (re - i) == re && j + (ae - j) == ae;
  }

  /** One unchanged token further to the front. */
  lemma RebuildsUnchanged(before: seq<Token>, i: nat, after: seq<Token>, j: nat, hs: seq<Hunk>)
    requires i < |before| && j < |after| && before[i] == after[j] && Rebuilds(before, i + 1, after, j + 1, hs)
    ensures Rebuilds(before, i, after, j, hs) && Ordered(hs, i + 1, j + 1, |before|, |after|)
  {
    ApplyUnchanged(before, after, hs, i, j + 1);
    assert [after[j]] + after[j + 1..] == after[j..];
    OrderedEarlier(hs, i, j, |before|, |after|);
  }

  lemma OrderedEarlier(hs: seq<Hunk>, i: nat, j: nat, n: nat, m: nat)
    requires Ordered(hs, i + 1, j + 1, n, m)
    ensures Ordered(hs, i, j, n, m)
  {
  }

  /** One hunk further to the front. */
  lemma RebuildsHunk(before: seq<Token>, after: seq<Token>, hs: seq<Hunk>)
    requires hs != [] && hs[0].beforeStart <= hs[0].beforeEnd && hs[0].afterStart <= hs[0].afterEnd
    requires Rebuilds(before, hs[0].beforeEnd, after, hs[0].afterEnd, hs[1..])
    requires Ordered(hs[1..], hs[0].beforeEnd + 1, hs[0].afterEnd + 1, |before|, |after|)
    ensures Rebuilds(before, hs[0].beforeStart, after, hs[0].afterStart, hs)
  {
    var h := hs[0];
    var text := after[h.afterStart..h.afterEnd];
    assert before[h.beforeStart..h.beforeStart] + text == text;
    assert text + after[h.afterEnd..] == after[h.afterStart..];
  }

  /** The hunks of a valid diff turn the old file into the new one. */
  lemma ValidDiffRebuilds(before: seq<Token>, removed: seq<bool>, after: seq<Token>, added: seq<bool>)
    requires ValidDiff(before, after, removed, added)
    ensures var hs := HunksFrom(removed, added, 0, 0, 0, 0);
            Ordered(hs, 0, 0, |before|, |after|) && Apply(before, after, hs, 0) == after
  {
    RebuildsFrom(before, removed, 0, after, added, 0);
  }
}
