/**
 * `gix-imara-diff/src/myers.rs` with its helpers: the Myers diff marks tokens in place while it divides the
 * files into smaller and smaller windows. The answer is a valid diff whatever the heuristics choose.
 */
module DiffEngine {
  import opened DiffMarks
  import opened EditDistance
  import opened Twins
  import MS = MiddleSnake
  import SP = ShortestPaths

  /** Outside of `l..h` the two markings are the same. */
  predicate SameOutside(m: seq<bool>, m': seq<bool>, l: nat, h: nat) {
    |m| == |m'| && forall x :: 0 <= x < |m| && !(l <= x < h) ==> m'[x] == m[x]
  }

  lemma AgreeJoin(a: seq<Token>, ma: seq<bool>, l1: nat, k1: nat, h1: nat,
                  b: seq<Token>, mb: seq<bool>, l2: nat, k2: nat, h2: nat)
    requires Agree(a, ma, l1, k1, b, mb, l2, k2) && Agree(a, ma, k1, h1, b, mb, k2, h2)
    ensures Agree(a, ma, l1, h1, b, mb, l2, h2)
  {
    KeptJoin(a, ma, l1, k1, h1);
    KeptJoin(b, mb, l2, k2, h2);
  }

  lemma {:induction false} AgreeEqual(a: seq<Token>, ma: seq<bool>, i: nat,
                                      b: seq<Token>, mb: seq<bool>, j: nat, n: nat)
    requires |a| == |ma| && |b| == |mb| && SameTokens(a, i, b, j, n) && Unmarked(ma, i, i + n) && Unmarked(mb, j, j + n)
    ensures Agree(a, ma, i, i + n, b, mb, j, j + n)
    decreases n
  {
    if n > 0 {
      AgreeEqual(a, ma, i + 1, b, mb, j + 1, n - 1);
      assert a[i] == b[j];
    }
  }

  lemma AgreeMarked(a: seq<Token>, ma: seq<bool>, l1: nat, h1: nat, b: seq<Token>, mb: seq<bool>, l2: nat, h2: nat)
    requires l1 <= h1 <= |a| == |ma| && l2 <= h2 <= |b| == |mb| && AllMarked(ma, l1, h1) && AllMarked(mb, l2, h2)
    ensures Agree(a, ma, l1, h1, b, mb, l2, h2)
  {
    KeptNone(a, ma, l1, h1);
    KeptNone(b, mb, l2, h2);
  }

  /** Windows that later marking did not touch still agree. */
  lemma AgreeStable(a: seq<Token>, ma: seq<bool>, ma': seq<bool>, l1: nat, h1: nat,
                    b: seq<Token>, mb: seq<bool>, mb': seq<bool>, l2: nat, h2: nat)
    requires Agree(a, ma, l1, h1, b, mb, l2, h2) && SameInside(ma, ma', l1, h1) && SameInside(mb, mb', l2, h2)
    ensures Agree(a, ma', l1, h1, b, mb', l2, h2)
  {
    KeptFrame(a, ma, ma', l1, h1);
    KeptFrame(b, mb, mb', l2, h2);
  }

  /** Windows that agree between common ends. */
  lemma EdgesAgree(a: seq<Token>, ma: seq<bool>, l1: nat, h1: nat,
                   b: seq<Token>, mb: seq<bool>, l2: nat, h2: nat, off: nat, post: nat)
    requires l1 + off + post <= h1 <= |a| == |ma| && l2 + off + post <= h2 <= |b| == |mb|
    requires SameTokens(a, l1, b, l2, off) && SameTokens(a, h1 - post, b, h2 - post, post)
    requires Unmarked(ma, l1, l1 + off) && Unmarked(ma, h1 - post, h1)
    requires Unmarked(mb, l2, l2 + off) && Unmarked(mb, h2 - post, h2)
    requires Agree(a, ma, l1 + off, h1 - post, b, mb, l2 + off, h2 - post)
    ensures Agree(a, ma, l1, h1, b, mb, l2, h2)
  {
    AgreeEqual(a, ma, l1, b, mb, l2, off);
    AgreeEqual(a, ma, h1 - post, b, mb, h2 - post, post);
    AgreeJoin(a, ma, l1, l1 + off, h1 - post, b, mb, l2, l2 + off, h2 - post);
    AgreeJoin(a, ma, l1, h1 - post, h1, b, mb, l2, h2 - post, h2);
  }

  method Fill(marks: array<bool>, l: nat, h: nat)
    requires l <= h <= marks.Length
    modifies marks
    ensures AllMarked(marks[..], l, h) && SameOutside(old(marks[..]), marks[..], l, h)
  {
    for x := l to h
      invariant AllMarked(marks[..], l, x) && SameOutside(old(marks[..]), marks[..], l, x)
    {
      marks[x] := true;
    }
  }

  // -------------------------------------------------------------------------------------------------
  // `myers/preprocess.rs` and `myers/slice.rs`: files after pruning.
  // -------------------------------------------------------------------------------------------------

  /** What preprocessing leaves of a file: tokens, and where in the file they are. */
  datatype Pruned = Pruned(tokens: seq<Token>, indices: seq<nat>)

  /** `f` names positions of a file of `n` tokens, in order. */
  ghost predicate Indexed(f: Pruned, n: nat) {
    && |f.tokens| == |f.indices|
    && (forall k :: 0 <= k < |f.indices| ==> f.indices[k] < n)
    && (forall k, k' :: 0 <= k < k' < |f.indices| ==> f.indices[k] < f.indices[k'])
  }

  lemma {:induction false} IndexedIsShort(f: Pruned, n: nat, k: nat)
    requires Indexed(f, n) && k <= |f.indices|
    ensures k <= n && (k > 0 ==> f.indices[k - 1] >= k - 1)
  {
    if k > 0 {
      IndexedIsShort(f, n, k - 1);
      assert f.indices[k - 1] < n;
    }
  }

  /** `f` consists of tokens of `file[lo..hi]`, in order. */
  ghost predicate Faithful(f: Pruned, file: seq<Token>, lo: nat, hi: nat) {
    && Indexed(f, |file|) && lo <= hi <= |file|
    && (forall k :: 0 <= k < |f.indices| ==> lo <= f.indices[k] < hi && f.tokens[k] == file[f.indices[k]])
  }

  /** The markers of the file at the tokens preprocessing left. */
  ghost function MarksOf(m: seq<bool>, f: Pruned): (r: seq<bool>)
    requires Indexed(f, |m|)
    ensures |r| == |f.tokens|
  {
    seq(|f.indices|, k requires 0 <= k < |f.indices| => m[f.indices[k]])
  }

  /** None of the tokens `l..h` of `f` is marked. */
  ghost predicate Untouched(m: seq<bool>, f: Pruned, l: nat, h: nat) {
    forall k :: l <= k < h && k < |f.indices| && f.indices[k] < |m| ==> !m[f.indices[k]]
  }

  /** `x` is where one of the tokens `l..h` of `f` stands. */
  ghost predicate Named(f: Pruned, l: nat, h: nat, x: nat) {
    exists k :: l <= k < h && k < |f.indices| && f.indices[k] == x
  }

  /** From `m` to `m'` nothing happened but setting markers of the tokens `l..h` of `f`. */
  ghost predicate OnlySet(m: seq<bool>, m': seq<bool>, f: Pruned, l: nat, h: nat) {
    |m| == |m'| && forall x: nat :: x < |m| && m'[x] != m[x] ==> m'[x] && Named(f, l, h, x)
  }

  lemma OnlySetJoin(m: seq<bool>, m': seq<bool>, m'': seq<bool>, f: Pruned, l: nat, k: nat, h: nat)
    requires OnlySet(m, m', f, l, k) && OnlySet(m', m'', f, k, h) && l <= k <= h
    ensures OnlySet(m, m'', f, l, h)
  {}

  lemma OnlySetOutside(m: seq<bool>, m': seq<bool>, f: Pruned, l: nat, h: nat)
    requires Indexed(f, |m|) && OnlySet(m, m', f, l, h)
    ensures SameOutside(MarksOf(m, f), MarksOf(m', f), l, h)
  {
    forall k | 0 <= k < |f.indices| && !(l <= k < h)
      ensures MarksOf(m', f)[k] == MarksOf(m, f)[k]
    {
      assert !Named(f, l, h, f.indices[k]);
    }
  }

  lemma NamedGrows(g: Pruned, f: Pruned, i: nat)
    requires f.indices == g.indices + [i] && |g.tokens| == |g.indices| && |f.tokens| == |f.indices|
    ensures forall x: nat :: Named(f, 0, |f.tokens|, x) <==> x == i || Named(g, 0, |g.tokens|, x)
  {
    forall x: nat | x == i || Named(g, 0, |g.tokens|, x)
      ensures Named(f, 0, |f.tokens|, x)
    {
      var k :| 0 <= k < |f.indices| && (k < |g.indices| ==> g.indices[k] == x) && f.indices[k] == x;
    }
  }

  /** `prune_unmatched_tokens`: mark the tokens to prune, keep the others, for any choice of what to prune. */
  method Preprocess(file: seq<Token>, lo: nat, hi: nat, changed: array<bool>, prune: nat -> bool) returns (f: Pruned)
    requires lo <= hi <= |file| == changed.Length && Unmarked(changed[..], lo, hi)
    modifies changed
    ensures Faithful(f, file, lo, hi) && SameOutside(old(changed[..]), changed[..], lo, hi)
    ensures forall x :: lo <= x < hi ==> (changed[x] <==> !Named(f, 0, |f.tokens|, x))
    ensures forall x :: lo <= x < hi ==> (changed[x] <==> prune(x))
  {
    f := Pruned([], []);
    for i := lo to hi
      invariant Faithful(f, file, lo, i) && SameOutside(old(changed[..]), changed[..], lo, i)
      invariant forall x :: lo <= x < i ==> (changed[x] <==> !Named(f, 0, |f.tokens|, x))
      invariant forall x :: lo <= x < i ==> (changed[x] <==> prune(x))
      invariant Unmarked(changed[..], i, hi)
    {
      ghost var g := f;
      if prune(i) {
        changed[i] := true;
      } else {
        f := Pruned(f.tokens + [file[i]], f.indices + [i]);
        NamedGrows(g, f, i);
      }
    }
  }

  lemma BetweenIsNotNamed(f: Pruned, n: nat, k: nat, x: nat)
    requires Indexed(f, n) && k <= |f.indices| && (k < |f.indices| ==> x < f.indices[k])
          && (k > 0 ==> f.indices[k - 1] < x)
    ensures !Named(f, 0, |f.tokens|, x)
  {
    forall y | 0 <= y < |f.indices|
      ensures f.indices[y] != x
    {
      if k < y { assert f.indices[k] < f.indices[y]; }
      if y < k - 1 { assert f.indices[y] < f.indices[k - 1]; }
    }
  }

  /** With everything pruned marked, a file keeps what its preprocessed form keeps. */
  lemma {:induction false} KeptLift(file: seq<Token>, m: seq<bool>, f: Pruned, c: seq<bool>, lo: nat, hi: nat, x: nat,
                                    k: nat)
    requires Faithful(f, file, lo, hi) && |m| == |file| && lo <= x <= hi && k <= |f.indices| && c == MarksOf(m, f)
    requires forall y :: lo <= y < hi ==> m[y] || Named(f, 0, |f.tokens|, y)
    requires (k < |f.indices| ==> x <= f.indices[k]) && (k > 0 ==> f.indices[k - 1] < x)
    ensures KeptIn(file, m, x, hi) == KeptIn(f.tokens, c, k, |f.tokens|)
    decreases hi - x
  {
    if x == hi {
      assert k == |f.indices|;
    } else if k < |f.indices| && f.indices[k] == x {
      assert k + 1 < |f.indices| ==> f.indices[k] < f.indices[k + 1];
      KeptLift(file, m, f, c, lo, hi, x + 1, k + 1);
      assert c[k] == m[x] && f.tokens[k] == file[x];
    } else {
      BetweenIsNotNamed(f, |file|, k, x);
      KeptLift(file, m, f, c, lo, hi, x + 1, k);
      assert m[x];
    }
  }

  /** `FileSlice::mark_changed` on the window `l..h` of a preprocessed file. */
  method MarkChanged(f: Pruned, l: nat, h: nat, changed: array<bool>)
    requires Indexed(f, changed.Length) && l <= h <= |f.indices|
    modifies changed
    ensures OnlySet(old(changed[..]), changed[..], f, l, h)
    ensures AllMarked(MarksOf(changed[..], f), l, h)
  {
    for k := l to h
      invariant forall x :: 0 <= x < changed.Length && changed[x] != old(changed[x]) ==> changed[x] && Named(f, l, h, x)
      invariant forall x :: l <= x < k ==> changed[f.indices[x]]
    {
      changed[f.indices[k]] := true;
    }
  }

  // -------------------------------------------------------------------------------------------------
  // `myers.rs`
  // -------------------------------------------------------------------------------------------------

  /** `Myers::split` on two windows without common ends. */
  method SplitWindows(a: seq<Token>, i1: nat, j1: nat, b: seq<Token>, i2: nat, j2: nat, minimal: bool, maxCost: nat)
    returns (s: MS.Split)
    requires i1 < j1 <= |a| && i2 < j2 <= |b| && a[i1] != b[i2] && a[j1 - 1] != b[j2 - 1]
    requires |a| < MS.I32_MAX && |b| < MS.I32_MAX
    ensures i1 + s.idx1 <= j1 && i2 + s.idx2 <= j2 && 0 < s.idx1 + s.idx2 < (j1 - i1) + (j2 - i2)
    ensures MS.Thorough(minimal, maxCost, Distance(a, i1, j1, b, i2, j2)) ==>
              && s.minimizedLo && s.minimizedHi
              && Lcs(a, i1, i1 + s.idx1, b, i2, i2 + s.idx2) + Lcs(a, i1 + s.idx1, j1, b, i2 + s.idx2, j2)
                 == Lcs(a, i1, j1, b, i2, j2)
  {
    var x, y := a[i1..j1], b[i2..j2];
    assert x[0] == a[i1] && y[0] == b[i2] && x[|x| - 1] == a[j1 - 1] && y[|y| - 1] == b[j2 - 1];
    s := MS.FindSplit(x, y, minimal, maxCost);
    LcsOfWindows(a, i1, j1, b, i2, j2, 0, |x|, 0, |y|);
    if MS.Thorough(minimal, maxCost, Distance(a, i1, j1, b, i2, j2)) {
      ShortestOfWindows(a, i1, j1, b, i2, j2, x, y, s.idx1, s.idx2);
    }
  }

  /** Windows of windows have as much in common as those of the files. */
  lemma LcsOfWindows(a: seq<Token>, i1: nat, j1: nat, b: seq<Token>, i2: nat, j2: nat,
                     p: nat, u: nat, q: nat, v: nat)
    requires i1 <= j1 <= |a| && i2 <= j2 <= |b| && p <= u <= j1 - i1 && q <= v <= j2 - i2
    ensures Lcs(a[i1..j1], p, u, b[i2..j2], q, v) == Lcs(a, i1 + p, i1 + u, b, i2 + q, i2 + v)
  {
    LcsSame(a[i1..j1], p, b[i2..j2], q, a, i1 + p, b, i2 + q, u - p, v - q);
  }

  /** A place on a shortest path between two windows loses nothing of what they have in common. */
  lemma ShortestOfWindows(a: seq<Token>, i1: nat, j1: nat, b: seq<Token>, i2: nat, j2: nat,
                          x: seq<Token>, y: seq<Token>, p: nat, q: nat)
    requires i1 <= j1 <= |a| && i2 <= j2 <= |b| && x == a[i1..j1] && y == b[i2..j2] && SP.OnShortest(x, y, p, q)
    ensures Lcs(a, i1, i1 + p, b, i2, i2 + q) + Lcs(a, i1 + p, j1, b, i2 + q, j2) == Lcs(a, i1, j1, b, i2, j2)
  {
    LcsOfWindows(a, i1, j1, b, i2, j2, 0, p, 0, q);
    LcsOfWindows(a, i1, j1, b, i2, j2, p, |x|, q, |y|);
    LcsOfWindows(a, i1, j1, b, i2, j2, 0, |x|, 0, |y|);
  }

  // -------------------------------------------------------------------------------------------------
  // Keeping as much as possible.
  // -------------------------------------------------------------------------------------------------

  /**
   * Nothing is lost so far: what the windows below `i1`, `i2` keep, what is in common between them and `j1`, `j2`, and
   * the common tokens from there on are together as much as the whole windows have in common.
   */
  ghost predicate Saved(a: seq<Token>, c: seq<bool>, l1: nat, i1: nat, j1: nat, h1: nat,
                        b: seq<Token>, l2: nat, i2: nat, j2: nat, h2: nat) {
    && l1 <= i1 <= j1 <= h1 <= |a| == |c| && l2 <= i2 <= j2 <= h2 <= |b| && h1 - j1 == h2 - j2
    && |KeptIn(a, c, l1, i1)| + Lcs(a, i1, j1, b, i2, j2) + (h1 - j1) == Lcs(a, l1, h1, b, l2, h2)
  }

  lemma {:induction false} KeptAll(tokens: seq<Token>, marks: seq<bool>, l: nat, h: nat)
    requires l <= h <= |tokens| == |marks| && Unmarked(marks, l, h)
    ensures |KeptIn(tokens, marks, l, h)| == h - l
    decreases h - l
  {
    if l < h { KeptAll(tokens, marks, l + 1, h); }
  }

  lemma SavedPrefixed(a: seq<Token>, c: seq<bool>, l1: nat, k1: nat, e1: nat, h1: nat,
                      b: seq<Token>, l2: nat, k2: nat, e2: nat, h2: nat, off: nat)
    requires l1 + off <= e1 <= h1 <= |a| && l2 + off <= e2 <= h2 <= |b| && h1 - e1 == h2 - e2
    requires Saved(a, c, l1 + off, k1, e1, e1, b, l2 + off, k2, e2, e2) && Unmarked(c, l1, l1 + off)
    requires SameTokens(a, l1, b, l2, off) && SameTokens(a, e1, b, e2, h1 - e1)
    ensures Saved(a, c, l1, k1, e1, h1, b, l2, k2, e2, h2)
  {
    KeptAll(a, c, l1, l1 + off);
    KeptJoin(a, c, l1, l1 + off, k1);
    LcsPostfix(a, l1, h1, b, l2, h2, h1 - e1);
    LcsPrefix(a, l1, e1, b, l2, e2, off);
  }

  lemma SavedAdvance(a: seq<Token>, c: seq<bool>, c': seq<bool>, l1: nat, i1: nat, k1: nat, e1: nat, j1: nat, h1: nat,
                     b: seq<Token>, l2: nat, i2: nat, k2: nat, e2: nat, j2: nat, h2: nat)
    requires Saved(a, c, l1, i1, j1, h1, b, l2, i2, j2, h2) && Saved(a, c', i1, k1, e1, j1, b, i2, k2, e2, j2)
    requires SameInside(c, c', l1, i1)
    ensures Saved(a, c', l1, k1, e1, h1, b, l2, k2, e2, h2)
  {
    KeptFrame(a, c, c', l1, i1);
    KeptJoin(a, c', l1, i1, k1);
  }

  lemma SavedDone(a: seq<Token>, c: seq<bool>, l1: nat, j1: nat, h1: nat, b: seq<Token>, l2: nat, j2: nat, h2: nat)
    requires Saved(a, c, l1, j1, j1, h1, b, l2, j2, j2, h2) && Unmarked(c, j1, h1)
    ensures |KeptIn(a, c, l1, h1)| == Lcs(a, l1, h1, b, l2, h2)
  {
    KeptAll(a, c, j1, h1);
    KeptJoin(a, c, l1, j1, h1);
  }

  /** Markers that were not touched, and are not set, are those of unmarked tokens. */
  lemma UntouchedIsUnmarked(m: seq<bool>, m': seq<bool>, f: Pruned, l: nat, h: nat, i: nat, k: nat)
    requires Indexed(f, |m|) && |m'| == |m| && Untouched(m, f, l, h) && OnlySet(m, m', f, i, k) && h <= |f.tokens|
          && (h <= i || k <= l)
    ensures Unmarked(MarksOf(m', f), l, h)
  {
    forall x | l <= x < h
      ensures !MarksOf(m', f)[x]
    {
      assert !Named(f, i, k, f.indices[x]);
    }
  }

  /** The state of `Myers::run`: the windows below `i1`, `i2` and from `j1`, `j2` on are done, the rest is untouched. */
  ghost predicate Halfway(f1: Pruned, m1: seq<bool>, m1': seq<bool>, l1: nat, i1: nat, j1: nat, h1: nat,
                          f2: Pruned, m2: seq<bool>, m2': seq<bool>, l2: nat, i2: nat, j2: nat, h2: nat) {
    && Indexed(f1, |m1|) && Indexed(f2, |m2|) && |m1| == |m1'| && |m2| == |m2'|
    && l1 <= i1 <= j1 <= h1 <= |f1.tokens| && l2 <= i2 <= j2 <= h2 <= |f2.tokens| && h1 - j1 == h2 - j2
    && OnlySet(m1, m1', f1, l1, i1) && OnlySet(m2, m2', f2, l2, i2)
    && Untouched(m1', f1, i1, h1) && Untouched(m2', f2, i2, h2)
    && Agree(f1.tokens, MarksOf(m1', f1), l1, i1, f2.tokens, MarksOf(m2', f2), l2, i2)
    && SameTokens(f1.tokens, j1, f2.tokens, j2, h1 - j1)
  }

  lemma HalfwayStart(f1: Pruned, m1: seq<bool>, l1: nat, h1: nat, f2: Pruned, m2: seq<bool>, l2: nat, h2: nat)
    requires Indexed(f1, |m1|) && Indexed(f2, |m2|) && l1 <= h1 <= |f1.tokens| && l2 <= h2 <= |f2.tokens|
    requires Untouched(m1, f1, l1, h1) && Untouched(m2, f2, l2, h2)
    ensures Halfway(f1, m1, m1, l1, l1, h1, h1, f2, m2, m2, l2, l2, h2, h2)
  {}

  /** One round settles the windows up to `k1`, `k2` and finds the common postfixes from `e1`, `e2` on. */
  lemma HalfwayAdvance(f1: Pruned, m1: seq<bool>, m1': seq<bool>, m1'': seq<bool>,
                       l1: nat, i1: nat, k1: nat, e1: nat, j1: nat, h1: nat,
                       f2: Pruned, m2: seq<bool>, m2': seq<bool>, m2'': seq<bool>,
                       l2: nat, i2: nat, k2: nat, e2: nat, j2: nat, h2: nat)
    requires Halfway(f1, m1, m1', l1, i1, j1, h1, f2, m2, m2', l2, i2, j2, h2)
    requires i1 <= k1 <= e1 <= j1 && i2 <= k2 <= e2 <= j2 && j1 - e1 == j2 - e2
    requires SameTokens(f1.tokens, e1, f2.tokens, e2, j1 - e1)
    requires OnlySet(m1', m1'', f1, i1, k1) && OnlySet(m2', m2'', f2, i2, k2)
    requires Agree(f1.tokens, MarksOf(m1'', f1), i1, k1, f2.tokens, MarksOf(m2'', f2), i2, k2)
    ensures Halfway(f1, m1, m1'', l1, k1, e1, h1, f2, m2, m2'', l2, k2, e2, h2)
  {
    OnlySetOutside(m1', m1'', f1, i1, k1);
    OnlySetOutside(m2', m2'', f2, i2, k2);
    OnlySetJoin(m1, m1', m1'', f1, l1, i1, k1);
    OnlySetJoin(m2, m2', m2'', f2, l2, i2, k2);
    UntouchedStays(m1', m1'', f1, i1, k1, h1);
    UntouchedStays(m2', m2'', f2, i2, k2, h2);
    var c1, c1', c2, c2' := MarksOf(m1', f1), MarksOf(m1'', f1), MarksOf(m2', f2), MarksOf(m2'', f2);
    AgreeStable(f1.tokens, c1, c1', l1, i1, f2.tokens, c2, c2', l2, i2);
    AgreeJoin(f1.tokens, c1', l1, i1, k1, f2.tokens, c2', l2, i2, k2);
  }

  lemma UntouchedStays(m: seq<bool>, m': seq<bool>, f: Pruned, i: nat, k: nat, h: nat)
    requires Indexed(f, |m|) && Untouched(m, f, i, h) && OnlySet(m, m', f, i, k) && i <= k
    ensures Untouched(m', f, k, h)
  {
    forall x | k <= x < h && x < |f.indices|
      ensures !m'[f.indices[x]]
    {
      assert !Named(f, i, k, f.indices[x]);
    }
  }

  lemma HalfwayDone(f1: Pruned, m1: seq<bool>, m1': seq<bool>, l1: nat, j1: nat, h1: nat,
                    f2: Pruned, m2: seq<bool>, m2': seq<bool>, l2: nat, j2: nat, h2: nat)
    requires Halfway(f1, m1, m1', l1, j1, j1, h1, f2, m2, m2', l2, j2, j2, h2)
    ensures Agree(f1.tokens, MarksOf(m1', f1), l1, h1, f2.tokens, MarksOf(m2', f2), l2, h2)
    ensures OnlySet(m1, m1', f1, l1, h1) && OnlySet(m2, m2', f2, l2, h2)
  {
    AgreeEqual(f1.tokens, MarksOf(m1', f1), j1, f2.tokens, MarksOf(m2', f2), j2, h1 - j1);
    AgreeJoin(f1.tokens, MarksOf(m1', f1), l1, j1, h1, f2.tokens, MarksOf(m2', f2), l2, j2, h2);
    OnlySetJoin(m1, m1', m1', f1, l1, j1, h1);
    OnlySetJoin(m2, m2', m2', f2, l2, j2, h2);
  }

  lemma OnlySetBehind(m: seq<bool>, m': seq<bool>, f: Pruned, l: nat, h: nat, off: nat)
    requires Indexed(f, |m|) && l + off <= h <= |f.tokens| && Untouched(m, f, l, l + off)
    requires OnlySet(m, m', f, l + off, h)
    ensures OnlySet(m, m', f, l, h) && Unmarked(MarksOf(m', f), l, l + off)
  {
    OnlySetOutside(m, m', f, l + off, h);
    OnlySetJoin(m, m, m', f, l, l + off, h);
  }

  /** A common prefix in front of windows that agree. */
  lemma AgreePrefixed(f1: Pruned, m1: seq<bool>, m1': seq<bool>, l1: nat, h1: nat,
                      f2: Pruned, m2: seq<bool>, m2': seq<bool>, l2: nat, h2: nat, off: nat)
    requires Indexed(f1, |m1|) && Indexed(f2, |m2|) && l1 + off <= h1 <= |f1.tokens| && l2 + off <= h2 <= |f2.tokens|
    requires Untouched(m1, f1, l1, l1 + off) && Untouched(m2, f2, l2, l2 + off)
    requires SameTokens(f1.tokens, l1, f2.tokens, l2, off)
    requires OnlySet(m1, m1', f1, l1 + off, h1) && OnlySet(m2, m2', f2, l2 + off, h2)
    requires Agree(f1.tokens, MarksOf(m1', f1), l1 + off, h1, f2.tokens, MarksOf(m2', f2), l2 + off, h2)
    ensures Agree(f1.tokens, MarksOf(m1', f1), l1, h1, f2.tokens, MarksOf(m2', f2), l2, h2)
    ensures OnlySet(m1, m1', f1, l1, h1) && OnlySet(m2, m2', f2, l2, h2)
  {
    OnlySetBehind(m1, m1', f1, l1, h1, off);
    OnlySetBehind(m2, m2', f2, l2, h2, off);
    AgreeEqual(f1.tokens, MarksOf(m1', f1), l1, f2.tokens, MarksOf(m2', f2), l2, off);
    AgreeJoin(f1.tokens, MarksOf(m1', f1), l1, l1 + off, h1, f2.tokens, MarksOf(m2', f2), l2, l2 + off, h2);
  }

  /** One of the windows is empty: all of the other one has changed. */
  method MarkRest(f1: Pruned, l1: nat, h1: nat, removed: array<bool>, f2: Pruned, l2: nat, h2: nat, added: array<bool>)
    requires removed != added && (l1 == h1 || l2 == h2)
    requires Indexed(f1, removed.Length) && l1 <= h1 <= |f1.tokens|
    requires Indexed(f2, added.Length) && l2 <= h2 <= |f2.tokens|
    modifies removed, added
    ensures Agree(f1.tokens, MarksOf(removed[..], f1), l1, h1, f2.tokens, MarksOf(added[..], f2), l2, h2)
    ensures OnlySet(old(removed[..]), removed[..], f1, l1, h1) && OnlySet(old(added[..]), added[..], f2, l2, h2)
  {
    if l1 == h1 {
      MarkChanged(f2, l2, h2, added);
      assert removed[..] == old(removed[..]);
    } else {
      MarkChanged(f1, l1, h1, removed);
      assert added[..] == old(added[..]);
    }
    AgreeMarked(f1.tokens, MarksOf(removed[..], f1), l1, h1, f2.tokens, MarksOf(added[..], f2), l2, h2);
  }

  /** Of two windows without common ends: mark the one that is not empty, or split and recurse into the lower halves. */
  method MyersDivide(f1: Pruned, l1: nat, h1: nat, removed: array<bool>,
                     f2: Pruned, l2: nat, h2: nat, added: array<bool>,
                     minimal: bool, maxCost: nat)
    returns (done: bool, k1: nat, k2: nat, min: bool)
    requires removed != added && |f1.tokens| < MS.I32_MAX && |f2.tokens| < MS.I32_MAX
    requires Indexed(f1, removed.Length) && l1 <= h1 <= |f1.tokens| && Untouched(removed[..], f1, l1, h1)
    requires Indexed(f2, added.Length) && l2 <= h2 <= |f2.tokens| && Untouched(added[..], f2, l2, h2)
    requires l1 < h1 && l2 < h2 ==> f1.tokens[l1] != f2.tokens[l2] && f1.tokens[h1 - 1] != f2.tokens[h2 - 1]
    modifies removed, added
    ensures l1 <= k1 <= h1 && l2 <= k2 <= h2 && if done then k1 == h1 && k2 == h2 else l1 + l2 < k1 + k2
    ensures Agree(f1.tokens, MarksOf(removed[..], f1), l1, k1, f2.tokens, MarksOf(added[..], f2), l2, k2)
    ensures OnlySet(old(removed[..]), removed[..], f1, l1, k1) && OnlySet(old(added[..]), added[..], f2, l2, k2)
    ensures MS.Thorough(minimal, maxCost, Distance(f1.tokens, l1, h1, f2.tokens, l2, h2)) ==>
              && (done || min)
              && Saved(f1.tokens, MarksOf(removed[..], f1), l1, k1, h1, h1, f2.tokens, l2, k2, h2, h2)
    decreases (h1 - l1) + (h2 - l2), 0
  {
    done, k1, k2, min := l1 == h1 || l2 == h2, h1, h2, minimal;
    if done {
      MarkRest(f1, l1, h1, removed, f2, l2, h2, added);
    } else {
      var s := SplitWindows(f1.tokens, l1, h1, f2.tokens, l2, h2, minimal, maxCost);
      k1, k2, min := l1 + s.idx1, l2 + s.idx2, s.minimizedHi;
      MyersRun(f1, l1, k1, removed, f2, l2, k2, added, s.minimizedLo, maxCost);
    }
  }

  /** `FileSlice::strip_common`: what is left between the common ends, `off` tokens behind the start. */
  method StripCommon(f1: Pruned, l1: nat, h1: nat, ghost m1: seq<bool>,
                     f2: Pruned, l2: nat, h2: nat, ghost m2: seq<bool>)
    returns (off: nat, e1: nat, e2: nat)
    requires Indexed(f1, |m1|) && l1 <= h1 <= |f1.tokens| && Untouched(m1, f1, l1, h1)
    requires Indexed(f2, |m2|) && l2 <= h2 <= |f2.tokens| && Untouched(m2, f2, l2, h2)
    ensures l1 + off <= e1 <= h1 && l2 + off <= e2 <= h2 && h1 - e1 == h2 - e2
    ensures SameTokens(f1.tokens, l1, f2.tokens, l2, off) && SameTokens(f1.tokens, e1, f2.tokens, e2, h1 - e1)
    ensures l1 + off < e1 && l2 + off < e2 ==>
              f1.tokens[l1 + off] != f2.tokens[l2 + off] && f1.tokens[e1 - 1] != f2.tokens[e2 - 1]
    ensures Untouched(m1, f1, l1, l1 + off) && Untouched(m1, f1, l1 + off, e1)
    ensures Untouched(m2, f2, l2, l2 + off) && Untouched(m2, f2, l2 + off, e2)
  {
    var post;
    off, post := CommonEdges(f1.tokens, l1, h1, f2.tokens, l2, h2);
    e1, e2 := h1 - post, h2 - post;
  }

  /** One round of the loop in `Myers::run`: strip the common ends, then mark or divide what is between them. */
  method MyersRound(f1: Pruned, l1: nat, h1: nat, removed: array<bool>,
                    f2: Pruned, l2: nat, h2: nat, added: array<bool>,
                    minimal: bool, maxCost: nat)
    returns (done: bool, k1: nat, e1: nat, k2: nat, e2: nat, min: bool)
    requires removed != added && |f1.tokens| < MS.I32_MAX && |f2.tokens| < MS.I32_MAX
    requires Indexed(f1, removed.Length) && l1 <= h1 <= |f1.tokens| && Untouched(removed[..], f1, l1, h1)
    requires Indexed(f2, added.Length) && l2 <= h2 <= |f2.tokens| && Untouched(added[..], f2, l2, h2)
    modifies removed, added
    ensures l1 <= k1 <= e1 <= h1 && l2 <= k2 <= e2 <= h2 && h1 - e1 == h2 - e2
    ensures SameTokens(f1.tokens, e1, f2.tokens, e2, h1 - e1)
    ensures Agree(f1.tokens, MarksOf(removed[..], f1), l1, k1, f2.tokens, MarksOf(added[..], f2), l2, k2)
    ensures OnlySet(old(removed[..]), removed[..], f1, l1, k1) && OnlySet(old(added[..]), added[..], f2, l2, k2)
    ensures if done then k1 == e1 && k2 == e2 else (e1 - k1) + (e2 - k2) < (h1 - l1) + (h2 - l2)
    ensures MS.Thorough(minimal, maxCost, Distance(f1.tokens, l1, h1, f2.tokens, l2, h2)) ==>
              && (done || min)
              && Saved(f1.tokens, MarksOf(removed[..], f1), l1, k1, e1, h1, f2.tokens, l2, k2, e2, h2)
    decreases (h1 - l1) + (h2 - l2), 1
  {
    ghost var m1, m2 := removed[..], added[..];
    var off;
    off, e1, e2 := StripCommon(f1, l1, h1, m1, f2, l2, h2, m2);
    done, k1, k2, min := MyersDivide(f1, l1 + off, e1, removed, f2, l2 + off, e2, added, minimal, maxCost);
    AgreePrefixed(f1, m1, removed[..], l1, k1, f2, m2, added[..], l2, k2, off);
    DistanceBetween(f1.tokens, l1, e1, h1, f2.tokens, l2, e2, h2, off);
    if MS.Thorough(minimal, maxCost, Distance(f1.tokens, l1, h1, f2.tokens, l2, h2)) {
      UntouchedIsUnmarked(m1, removed[..], f1, l1, l1 + off, l1 + off, k1);
      SavedPrefixed(f1.tokens, MarksOf(removed[..], f1), l1, k1, e1, h1, f2.tokens, l2, k2, e2, h2, off);
    }
  }

  /** `Myers::run` on the windows `l1..h1` and `l2..h2` of two preprocessed files. */
  method MyersRun(f1: Pruned, l1: nat, h1: nat, removed: array<bool>, f2: Pruned, l2: nat, h2: nat, added: array<bool>,
                  minimal: bool, maxCost: nat)
    requires removed != added && |f1.tokens| < MS.I32_MAX && |f2.tokens| < MS.I32_MAX
    requires Indexed(f1, removed.Length) && l1 <= h1 <= |f1.tokens| && Untouched(removed[..], f1, l1, h1)
    requires Indexed(f2, added.Length) && l2 <= h2 <= |f2.tokens| && Untouched(added[..], f2, l2, h2)
    modifies removed, added
    ensures Agree(f1.tokens, MarksOf(removed[..], f1), l1, h1, f2.tokens, MarksOf(added[..], f2), l2, h2)
    ensures OnlySet(old(removed[..]), removed[..], f1, l1, h1) && OnlySet(old(added[..]), added[..], f2, l2, h2)
    ensures MS.Thorough(minimal, maxCost, Distance(f1.tokens, l1, h1, f2.tokens, l2, h2)) ==>
              |KeptIn(f1.tokens, MarksOf(removed[..], f1), l1, h1)| == Lcs(f1.tokens, l1, h1, f2.tokens, l2, h2)
    decreases (h1 - l1) + (h2 - l2), 2
  {
    var i1: nat, j1: nat, i2: nat, j2: nat, min, done := l1, h1, l2, h2, minimal, false;
    ghost var m1, m2 := removed[..], added[..];
    ghost var thorough := MS.Thorough(minimal, maxCost, Distance(f1.tokens, l1, h1, f2.tokens, l2, h2));
    HalfwayStart(f1, m1, l1, h1, f2, m2, l2, h2);
    while !done
      invariant Halfway(f1, m1, removed[..], l1, i1, j1, h1, f2, m2, added[..], l2, i2, j2, h2)
      invariant done ==> i1 == j1 && i2 == j2
      invariant (j1 - i1) + (j2 - i2) <= (h1 - l1) + (h2 - l2)
      invariant thorough ==>
                  && (done || MS.Thorough(min, maxCost, Distance(f1.tokens, i1, j1, f2.tokens, i2, j2)))
                  && Saved(f1.tokens, MarksOf(removed[..], f1), l1, i1, j1, h1, f2.tokens, l2, i2, j2, h2)
      decreases !done, (j1 - i1) + (j2 - i2)
    {
      ghost var n1, n2 := removed[..], added[..];
      var k1, e1, k2, e2;
      done, k1, e1, k2, e2, min := MyersRound(f1, i1, j1, removed, f2, i2, j2, added, min, maxCost);
      HalfwayAdvance(f1, m1, n1, removed[..], l1, i1, k1, e1, j1, h1, f2, m2, n2, added[..], l2, i2, k2, e2, j2, h2);
      if thorough {
        OnlySetOutside(n1, removed[..], f1, i1, k1);
        SavedAdvance(f1.tokens, MarksOf(n1, f1), MarksOf(removed[..], f1), l1, i1, k1, e1, j1, h1,
                     f2.tokens, l2, i2, k2, e2, j2, h2);
      }
      i1, j1, i2, j2 := k1, e1, k2, e2;
    }
    if thorough {
      UntouchedIsUnmarked(removed[..], removed[..], f1, j1, h1, 0, 0);
      SavedDone(f1.tokens, MarksOf(removed[..], f1), l1, j1, h1, f2.tokens, l2, j2, h2);
    }
    HalfwayDone(f1, m1, removed[..], l1, j1, h1, f2, m2, added[..], l2, j2, h2);
  }

  /** After the run, the window of the file keeps what its preprocessed form keeps. */
  lemma RunLifts(file: seq<Token>, f: Pruned, lo: nat, hi: nat, m: seq<bool>, m': seq<bool>)
    requires Faithful(f, file, lo, hi) && |m| == |file| && OnlySet(m, m', f, 0, |f.tokens|)
    requires forall x :: lo <= x < hi ==> (m[x] <==> !Named(f, 0, |f.tokens|, x))
    ensures KeptIn(file, m', lo, hi) == KeptIn(f.tokens, MarksOf(m', f), 0, |f.tokens|)
    ensures SameOutside(m, m', lo, hi)
  {
    KeptLift(file, m', f, MarksOf(m', f), lo, hi, lo, 0);
  }

  lemma {:induction false} KeptWhole(tokens: seq<Token>, marks: seq<bool>, l: nat)
    requires l <= |tokens| == |marks| && Unmarked(marks, l, |tokens|)
    ensures KeptIn(tokens, marks, l, |tokens|) == tokens[l..]
    decreases |tokens| - l
  {
    if l < |tokens| { KeptWhole(tokens, marks, l + 1); }
  }

  /** What preprocessing leaves of a file are the tokens it does not mark. */
  lemma PrunedIsKept(file: seq<Token>, f: Pruned, lo: nat, hi: nat, m: seq<bool>)
    requires Faithful(f, file, lo, hi) && |m| == |file|
          && forall x :: lo <= x < hi ==> (m[x] <==> !Named(f, 0, |f.tokens|, x))
    ensures KeptIn(file, m, lo, hi) == f.tokens
  {
    var c := MarksOf(m, f);
    forall k | 0 <= k < |c|
      ensures !c[k]
    {
      assert Named(f, 0, |f.tokens|, f.indices[k]);
    }
    KeptLift(file, m, f, c, lo, hi, lo, 0);
    KeptWhole(f.tokens, c, 0);
  }

  /** Only tokens that do not occur in the other window are pruned. */
  ghost predicate PrunesForeign(prune: nat -> bool, a: seq<Token>, l1: nat, h1: nat, b: seq<Token>, l2: nat, h2: nat) {
    forall x: nat, y: nat :: l1 <= x < h1 && l2 <= y < h2 && x < |a| && y < |b| && prune(x) ==> b[y] != a[x]
  }

  /** Nothing keeps the search from a longest common subsequence: neither what is pruned nor the number of edits. */
  ghost predicate Exact(minimal: bool, maxCost: nat, prune: nat -> bool, prune': nat -> bool,
                        a: seq<Token>, l1: nat, h1: nat, b: seq<Token>, l2: nat, h2: nat)
    requires Windows(a, l1, h1, b, l2, h2)
  {
    && PrunesForeign(prune, a, l1, h1, b, l2, h2) && PrunesForeign(prune', b, l2, h2, a, l1, h1)
    && MS.Thorough(minimal, maxCost, Distance(a, l1, h1, b, l2, h2))
  }

  /** What is kept of the files is all that they have in common, if it is so for what preprocessing left of them. */
  lemma SearchIsMinimal(a: seq<Token>, f1: Pruned, l1: nat, h1: nat, g1: seq<bool>, m1: seq<bool>,
                        b: seq<Token>, f2: Pruned, l2: nat, h2: nat, g2: seq<bool>, m2: seq<bool>,
                        minimal: bool, maxCost: nat)
    requires Agree(a, m1, l1, h1, b, m2, l2, h2) && |g1| == |a| && |g2| == |b|
    requires Faithful(f1, a, l1, h1) && forall x :: l1 <= x < h1 ==> (g1[x] <==> !Named(f1, 0, |f1.tokens|, x))
    requires Faithful(f2, b, l2, h2) && forall y :: l2 <= y < h2 ==> (g2[y] <==> !Named(f2, 0, |f2.tokens|, y))
    requires Foreign(a, g1, l1, h1, b, l2, h2) && Foreign(b, g2, l2, h2, a, l1, h1)
    requires MS.Thorough(minimal, maxCost, Distance(a, l1, h1, b, l2, h2))
    requires MS.Thorough(minimal, maxCost, Distance(f1.tokens, 0, |f1.tokens|, f2.tokens, 0, |f2.tokens|)) ==>
               |KeptIn(a, m1, l1, h1)| == Lcs(f1.tokens, 0, |f1.tokens|, f2.tokens, 0, |f2.tokens|)
    ensures |KeptIn(a, m1, l1, h1)| == Lcs(a, l1, h1, b, l2, h2)
  {
    KeptIsCommon(a, m1, l1, h1, b, m2, l2, h2);
    PrunedIsKept(a, f1, l1, h1, g1);
    PrunedIsKept(b, f2, l2, h2, g2);
    DroppingIsCloser(a, f1.tokens, l1, h1, g1, b, f2.tokens, l2, h2, g2);
  }

  /** Dropping tokens without a counterpart leaves fewer edits and no less in common. */
  lemma DroppingIsCloser(a: seq<Token>, p: seq<Token>, l1: nat, h1: nat, g1: seq<bool>,
                         b: seq<Token>, q: seq<Token>, l2: nat, h2: nat, g2: seq<bool>)
    requires Windows(a, l1, h1, b, l2, h2) && |g1| == |a| && |g2| == |b|
    requires p == KeptIn(a, g1, l1, h1) && q == KeptIn(b, g2, l2, h2)
    requires Foreign(a, g1, l1, h1, b, l2, h2) && Foreign(b, g2, l2, h2, a, l1, h1)
    ensures Distance(p, 0, |p|, q, 0, |q|) <= Distance(a, l1, h1, b, l2, h2)
    ensures Lcs(a, l1, h1, b, l2, h2) <= Lcs(p, 0, |p|, q, 0, |q|)
  {
    KeptFits(a, g1, l1, h1);
    KeptFits(b, g2, l2, h2);
    DroppingKeepsCommon(a, g1, l1, h1, p, b, g2, l2, h2, q);
  }

  /** What Myers can overlook: tokens that are pruned, and anything if it uses its heuristics. */
  ghost function Overlooked(prune: nat -> bool, prune': nat -> bool, hurried: bool): (nat, nat) -> bool {
    (x: nat, y: nat) => hurried || prune(x) || prune'(y)
  }

  lemma {:induction false} PrunedFits(file: seq<Token>, f: Pruned, lo: nat, hi: nat, k: nat)
    requires Faithful(f, file, lo, hi) && k <= |f.indices|
    ensures lo + k <= if k < |f.indices| then f.indices[k] else hi
  {
    if k > 0 {
      PrunedFits(file, f, lo, hi, k - 1);
      assert lo <= f.indices[k - 1] < hi && (k < |f.indices| ==> f.indices[k - 1] < f.indices[k]);
    }
  }

  /** In front of a token that preprocessing left, the file keeps as many tokens as its preprocessed form. */
  lemma PrunedBelow(file: seq<Token>, f: Pruned, lo: nat, hi: nat, m: seq<bool>, x: nat) returns (k: nat)
    requires Faithful(f, file, lo, hi) && |m| == |file| && Named(f, 0, |f.tokens|, x)
    requires forall y :: lo <= y < hi ==> m[y] || Named(f, 0, |f.tokens|, y)
    ensures k < |f.tokens| && f.indices[k] == x
    ensures |KeptIn(f.tokens, MarksOf(m, f), 0, k)| == |KeptIn(file, m, lo, x)|
  {
    k :| 0 <= k < |f.tokens| && f.indices[k] == x;
    var c := MarksOf(m, f);
    KeptLift(file, m, f, c, lo, hi, lo, 0);
    KeptLift(file, m, f, c, lo, hi, x, k);
    KeptJoin(file, m, lo, x, hi);
    KeptJoin(f.tokens, c, 0, k, |f.tokens|);
  }

  /** Equal tokens that preprocessing left are not both marked in one place, if the search keeps all it can. */
  lemma SearchTwins(a: seq<Token>, f1: Pruned, l1: nat, h1: nat, m1: seq<bool>,
                    b: seq<Token>, f2: Pruned, l2: nat, h2: nat, m2: seq<bool>, x: nat, y: nat)
    requires Faithful(f1, a, l1, h1) && |m1| == |a| && Named(f1, 0, |f1.tokens|, x)
    requires Faithful(f2, b, l2, h2) && |m2| == |b| && Named(f2, 0, |f2.tokens|, y)
    requires forall x :: l1 <= x < h1 ==> m1[x] || Named(f1, 0, |f1.tokens|, x)
    requires forall y :: l2 <= y < h2 ==> m2[y] || Named(f2, 0, |f2.tokens|, y)
    requires Agree(f1.tokens, MarksOf(m1, f1), 0, |f1.tokens|, f2.tokens, MarksOf(m2, f2), 0, |f2.tokens|)
    requires |KeptIn(f1.tokens, MarksOf(m1, f1), 0, |f1.tokens|)|
             == Lcs(f1.tokens, 0, |f1.tokens|, f2.tokens, 0, |f2.tokens|)
    ensures !AreTwins(a, m1, l1, x, b, m2, l2, y)
  {
    var k := PrunedBelow(a, f1, l1, h1, m1, x);
    var j := PrunedBelow(b, f2, l2, h2, m2, y);
    LcsHasNoTwins(f1.tokens, MarksOf(m1, f1), 0, |f1.tokens|, f2.tokens, MarksOf(m2, f2), 0, |f2.tokens|, k, j);
  }

  /** What the search on the preprocessed files leaves. */
  lemma SearchOverlooks(a: seq<Token>, f1: Pruned, l1: nat, h1: nat, m1: seq<bool>, prune: nat -> bool,
                        b: seq<Token>, f2: Pruned, l2: nat, h2: nat, m2: seq<bool>, prune': nat -> bool,
                        minimal: bool, maxCost: nat)
    requires Faithful(f1, a, l1, h1) && |m1| == |a| && Faithful(f2, b, l2, h2) && |m2| == |b|
    requires forall x :: l1 <= x < h1 ==> (m1[x] && prune(x)) || Named(f1, 0, |f1.tokens|, x)
    requires forall y :: l2 <= y < h2 ==> (m2[y] && prune'(y)) || Named(f2, 0, |f2.tokens|, y)
    requires Agree(f1.tokens, MarksOf(m1, f1), 0, |f1.tokens|, f2.tokens, MarksOf(m2, f2), 0, |f2.tokens|)
    requires MS.Thorough(minimal, maxCost, Distance(f1.tokens, 0, |f1.tokens|, f2.tokens, 0, |f2.tokens|)) ==>
               |KeptIn(f1.tokens, MarksOf(m1, f1), 0, |f1.tokens|)|
               == Lcs(f1.tokens, 0, |f1.tokens|, f2.tokens, 0, |f2.tokens|)
    ensures NoTwins(a, m1, l1, h1, b, m2, l2, h2,
                    Overlooked(prune, prune', !MS.Thorough(minimal, maxCost, (h1 - l1) + (h2 - l2))))
  {
    PrunedFits(a, f1, l1, h1, |f1.indices|);
    PrunedFits(b, f2, l2, h2, |f2.indices|);
    var lost := Overlooked(prune, prune', !MS.Thorough(minimal, maxCost, (h1 - l1) + (h2 - l2)));
    forall x: nat, y: nat | x < h1 && y < h2 && AreTwins(a, m1, l1, x, b, m2, l2, y)
      ensures lost(x, y)
    {
      if !lost(x, y) {
        SearchTwins(a, f1, l1, h1, m1, b, f2, l2, h2, m2, x, y);
      }
    }
  }

  /** The search of `myers::diff` on windows without common ends, with any choice of what to prune. */
  method MyersSearch(before: seq<Token>, l1: nat, h1: nat, removed: array<bool>,
                     after: seq<Token>, l2: nat, h2: nat, added: array<bool>,
                     prune: nat -> bool, prune': nat -> bool, minimal: bool, maxCost: nat)
    requires removed != added && removed.Length == |before| < MS.I32_MAX && added.Length == |after| < MS.I32_MAX
    requires l1 <= h1 <= |before| && l2 <= h2 <= |after| && Unmarked(removed[..], l1, h1) && Unmarked(added[..], l2, h2)
    modifies removed, added
    ensures Agree(before, removed[..], l1, h1, after, added[..], l2, h2)
    ensures SameOutside(old(removed[..]), removed[..], l1, h1) && SameOutside(old(added[..]), added[..], l2, h2)
    ensures Exact(minimal, maxCost, prune, prune', before, l1, h1, after, l2, h2) ==>
              |KeptIn(before, removed[..], l1, h1)| == Lcs(before, l1, h1, after, l2, h2)
    ensures NoTwins(before, removed[..], l1, h1, after, added[..], l2, h2,
                    Overlooked(prune, prune', !MS.Thorough(minimal, maxCost, (h1 - l1) + (h2 - l2))))
  {
    var f1 := Preprocess(before, l1, h1, removed, prune);
    var f2 := Preprocess(after, l2, h2, added, prune');
    ghost var m1, m2 := removed[..], added[..];
    IndexedIsShort(f1, |before|, |f1.indices|);
    IndexedIsShort(f2, |after|, |f2.indices|);
    MyersRun(f1, 0, |f1.tokens|, removed, f2, 0, |f2.tokens|, added, minimal, maxCost);
    RunLifts(before, f1, l1, h1, m1, removed[..]);
    RunLifts(after, f2, l2, h2, m2, added[..]);
    if Exact(minimal, maxCost, prune, prune', before, l1, h1, after, l2, h2) {
      SearchIsMinimal(before, f1, l1, h1, m1, removed[..], after, f2, l2, h2, m2, added[..], minimal, maxCost);
    }
    SearchOverlooks(before, f1, l1, h1, removed[..], prune, after, f2, l2, h2, added[..], prune', minimal, maxCost);
  }

  /** No token of a common prefix is marked. */
  ghost predicate PrefixKept(before: seq<Token>, m1: seq<bool>, l1: nat, h1: nat,
                             after: seq<Token>, m2: seq<bool>, l2: nat, h2: nat) {
    forall k: nat :: l1 + k <= h1 && l2 + k <= h2 && SameTokens(before, l1, after, l2, k) ==>
      Unmarked(m1, l1, l1 + k) && Unmarked(m2, l2, l2 + k)
  }

  lemma LongestPrefixKept(before: seq<Token>, m1: seq<bool>, l1: nat, h1: nat,
                          after: seq<Token>, m2: seq<bool>, l2: nat, h2: nat, off: nat)
    requires l1 + off <= h1 <= |before| && l2 + off <= h2 <= |after|
    requires l1 + off < h1 && l2 + off < h2 ==> before[l1 + off] != after[l2 + off]
    requires Unmarked(m1, l1, l1 + off) && Unmarked(m2, l2, l2 + off)
    ensures PrefixKept(before, m1, l1, h1, after, m2, l2, h2)
  {}

  /** Between common ends, keeping all that the windows there have in common is enough. */
  lemma SavedBetween(a: seq<Token>, m: seq<bool>, l1: nat, h1: nat,
                     b: seq<Token>, m': seq<bool>, l2: nat, h2: nat, off: nat, post: nat)
    requires l1 + off + post <= h1 <= |a| == |m| && l2 + off + post <= h2 <= |b|
    requires SameTokens(a, l1, b, l2, off) && SameTokens(a, h1 - post, b, h2 - post, post)
    requires Unmarked(m, l1, l1 + off) && Unmarked(m, h1 - post, h1)
    requires |KeptIn(a, m, l1 + off, h1 - post)| == Lcs(a, l1 + off, h1 - post, b, l2 + off, h2 - post)
    ensures |KeptIn(a, m, l1, h1)| == Lcs(a, l1, h1, b, l2, h2)
  {
    var e1, e2 := h1 - post, h2 - post;
    assert Saved(a, m, l1 + off, e1, e1, e1, b, l2 + off, e2, e2, e2);
    SavedPrefixed(a, m, l1, e1, e1, h1, b, l2, e2, e2, h2, off);
    SavedDone(a, m, l1, e1, h1, b, l2, e2, h2);
  }

  /** What is done between the common ends leaves them unmarked. */
  lemma EdgesUnmarked(was: seq<bool>, marks: seq<bool>, l: nat, h: nat, off: nat, post: nat)
    requires l + off + post <= h <= |was| && Unmarked(was, l, h) && SameOutside(was, marks, l + off, h - post)
    ensures Unmarked(marks, l, l + off) && Unmarked(marks, h - post, h) && SameOutside(was, marks, l, h)
  {}

  /** Two windows that have no common ends, or of which one is empty. */
  method MyersMiddle(before: seq<Token>, l1: nat, h1: nat, removed: array<bool>,
                     after: seq<Token>, l2: nat, h2: nat, added: array<bool>,
                     prune: nat -> bool, prune': nat -> bool, minimal: bool, maxCost: nat)
    requires removed != added && removed.Length == |before| < MS.I32_MAX && added.Length == |after| < MS.I32_MAX
    requires l1 <= h1 <= |before| && l2 <= h2 <= |after| && Unmarked(removed[..], l1, h1) && Unmarked(added[..], l2, h2)
    modifies removed, added
    ensures Agree(before, removed[..], l1, h1, after, added[..], l2, h2)
    ensures SameOutside(old(removed[..]), removed[..], l1, h1) && SameOutside(old(added[..]), added[..], l2, h2)
    ensures minimal || Exact(false, maxCost, prune, prune', before, l1, h1, after, l2, h2) ==>
              |KeptIn(before, removed[..], l1, h1)| == Lcs(before, l1, h1, after, l2, h2)
    ensures !minimal ==>
              NoTwins(before, removed[..], l1, h1, after, added[..], l2, h2,
                      Overlooked(prune, prune', !MS.Thorough(false, maxCost, (h1 - l1) + (h2 - l2))))
  {
    if l1 == h1 {
      Fill(added, l2, h2);
      AgreeMarked(before, removed[..], l1, h1, after, added[..], l2, h2);
    } else if l2 == h2 {
      Fill(removed, l1, h1);
      AgreeMarked(before, removed[..], l1, h1, after, added[..], l2, h2);
    } else {
      var p := if minimal then (x: nat) => x < |before| && before[x] !in after else prune;
      var p' := if minimal then (y: nat) => y < |after| && after[y] !in before else prune';
      MyersSearch(before, l1, h1, removed, after, l2, h2, added, p, p', minimal, maxCost);
    }
  }

  /** `myers::diff`. */
  method MyersDiff(before: seq<Token>, l1: nat, h1: nat, removed: array<bool>,
                   after: seq<Token>, l2: nat, h2: nat, added: array<bool>,
                   prune: nat -> bool, prune': nat -> bool, minimal: bool, maxCost: nat)
    requires removed != added && removed.Length == |before| < MS.I32_MAX && added.Length == |after| < MS.I32_MAX
    requires l1 <= h1 <= |before| && l2 <= h2 <= |after| && Unmarked(removed[..], l1, h1) && Unmarked(added[..], l2, h2)
    modifies removed, added
    ensures Agree(before, removed[..], l1, h1, after, added[..], l2, h2)
    ensures PrefixKept(before, removed[..], l1, h1, after, added[..], l2, h2)
    ensures SameOutside(old(removed[..]), removed[..], l1, h1) && SameOutside(old(added[..]), added[..], l2, h2)
    ensures minimal || Exact(false, maxCost, prune, prune', before, l1, h1, after, l2, h2) ==>
              |KeptIn(before, removed[..], l1, h1)| == Lcs(before, l1, h1, after, l2, h2)
    ensures !minimal ==>
              NoTwins(before, removed[..], l1, h1, after, added[..], l2, h2,
                      Overlooked(prune, prune', !MS.Thorough(false, maxCost, (h1 - l1) + (h2 - l2))))
  {
    var off, post := CommonEdges(before, l1, h1, after, l2, h2);
    ExactInside(maxCost, prune, prune', before, l1, h1, after, l2, h2, off, post);
    MyersMiddle(before, l1 + off, h1 - post, removed, after, l2 + off, h2 - post, added, prune, prune', minimal,
                maxCost);
    EdgesDone(before, old(removed[..]), removed[..], l1, h1, after, old(added[..]), added[..], l2, h2, off, post);
    if minimal || Exact(false, maxCost, prune, prune', before, l1, h1, after, l2, h2) {
      SavedBetween(before, removed[..], l1, h1, after, added[..], l2, h2, off, post);
    }
    if !minimal {
      OverlookedBetween(before, removed[..], l1, h1, after, added[..], l2, h2, off, post, prune, prune', maxCost);
    }
  }

  lemma OverlookedBetween(before: seq<Token>, m1: seq<bool>, l1: nat, h1: nat,
                          after: seq<Token>, m2: seq<bool>, l2: nat, h2: nat, off: nat, post: nat,
                          prune: nat -> bool, prune': nat -> bool, maxCost: nat)
    requires l1 + off + post <= h1 <= |before| == |m1| && l2 + off + post <= h2 <= |after| == |m2|
    requires SameTokens(before, l1, after, l2, off) && Unmarked(m1, l1, l1 + off) && Unmarked(m2, l2, l2 + off)
    requires Unmarked(m1, h1 - post, h1) && Unmarked(m2, h2 - post, h2)
    requires var n := (h1 - post - (l1 + off)) + (h2 - post - (l2 + off));
             NoTwins(before, m1, l1 + off, h1 - post, after, m2, l2 + off, h2 - post,
                     Overlooked(prune, prune', !MS.Thorough(false, maxCost, n)))
    ensures NoTwins(before, m1, l1, h1, after, m2, l2, h2,
                    Overlooked(prune, prune', !MS.Thorough(false, maxCost, (h1 - l1) + (h2 - l2))))
  {
    var lost := Overlooked(prune, prune', !MS.Thorough(false, maxCost, (h1 - l1) + (h2 - l2)));
    TwinsBetween(before, m1, l1, h1, after, m2, l2, h2, off, post, lost);
  }

  /** Between common ends, twins are those of the windows there. */
  lemma TwinsBetween(before: seq<Token>, m1: seq<bool>, l1: nat, h1: nat,
                     after: seq<Token>, m2: seq<bool>, l2: nat, h2: nat, off: nat, post: nat,
                     lost: (nat, nat) -> bool)
    requires l1 + off + post <= h1 <= |before| == |m1| && l2 + off + post <= h2 <= |after| == |m2|
    requires SameTokens(before, l1, after, l2, off) && Unmarked(m1, l1, l1 + off) && Unmarked(m2, l2, l2 + off)
    requires Unmarked(m1, h1 - post, h1) && Unmarked(m2, h2 - post, h2)
    requires NoTwins(before, m1, l1 + off, h1 - post, after, m2, l2 + off, h2 - post, lost)
    ensures NoTwins(before, m1, l1, h1, after, m2, l2, h2, lost)
  {
    AgreeEqual(before, m1, l1, after, m2, l2, off);
    forall x: nat, y: nat | x < h1 && y < h2 && AreTwins(before, m1, l1, x, after, m2, l2, y)
      ensures lost(x, y)
    {
      KeptJoin(before, m1, l1, l1 + off, x);
      KeptJoin(after, m2, l2, l2 + off, y);
      assert AreTwins(before, m1, l1 + off, x, after, m2, l2 + off, y);
    }
  }

  /** Common ends do not keep the search from anything. */
  lemma ExactInside(maxCost: nat, prune: nat -> bool, prune': nat -> bool, a: seq<Token>, l1: nat, h1: nat,
                    b: seq<Token>, l2: nat, h2: nat, off: nat, post: nat)
    requires l1 + off + post <= h1 <= |a| && l2 + off + post <= h2 <= |b|
    requires SameTokens(a, l1, b, l2, off) && SameTokens(a, h1 - post, b, h2 - post, post)
    ensures Exact(false, maxCost, prune, prune', a, l1, h1, b, l2, h2) ==>
              Exact(false, maxCost, prune, prune', a, l1 + off, h1 - post, b, l2 + off, h2 - post)
  {
    DistanceBetween(a, l1, h1 - post, h1, b, l2, h2 - post, h2, off);
  }

  /** What is done between the longest common ends. */
  lemma EdgesDone(before: seq<Token>, m1: seq<bool>, m1': seq<bool>, l1: nat, h1: nat,
                  after: seq<Token>, m2: seq<bool>, m2': seq<bool>, l2: nat, h2: nat, off: nat, post: nat)
    requires l1 + off + post <= h1 <= |before| == |m1| && l2 + off + post <= h2 <= |after| == |m2|
    requires SameTokens(before, l1, after, l2, off) && SameTokens(before, h1 - post, after, h2 - post, post)
    requires l1 + off < h1 && l2 + off < h2 ==> before[l1 + off] != after[l2 + off]
    requires Unmarked(m1, l1, h1) && SameOutside(m1, m1', l1 + off, h1 - post)
    requires Unmarked(m2, l2, h2) && SameOutside(m2, m2', l2 + off, h2 - post)
    requires Agree(before, m1', l1 + off, h1 - post, after, m2', l2 + off, h2 - post)
    ensures SameOutside(m1, m1', l1, h1) && SameOutside(m2, m2', l2, h2)
    ensures Unmarked(m1', l1, l1 + off) && Unmarked(m1', h1 - post, h1)
    ensures Unmarked(m2', l2, l2 + off) && Unmarked(m2', h2 - post, h2)
    ensures Agree(before, m1', l1, h1, after, m2', l2, h2) && PrefixKept(before, m1', l1, h1, after, m2', l2, h2)
  {
    EdgesUnmarked(m1, m1', l1, h1, off, post);
    EdgesUnmarked(m2, m2', l2, h2, off, post);
    LongestPrefixKept(before, m1', l1, h1, after, m2', l2, h2, off);
    EdgesAgree(before, m1', l1, h1, after, m2', l2, h2, off, post);
  }
}
