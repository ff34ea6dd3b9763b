/**
 * Change markers of a diff: one flag per token of a file, `true` for a token that was removed or added.
 * A diff is valid when the unmarked tokens of both files are the same sequence.
 */
module DiffMarks {
  type Token = nat

  /** Tokens `beforeStart..beforeEnd` are replaced by `afterStart..afterEnd`. */
  datatype Hunk = Hunk(beforeStart: nat, beforeEnd: nat, afterStart: nat, afterEnd: nat)

  /** The tokens of the window `l..h` that are not marked, in order. */
  function KeptIn(tokens: seq<Token>, marks: seq<bool>, l: nat, h: nat): (r: seq<Token>)
    requires l <= h <= |tokens| == |marks|
    decreases h - l
  {
    if l == h then []
    else (if marks[l] then [] else [tokens[l]]) + KeptIn(tokens, marks, l + 1, h)
  }

  function Kept(tokens: seq<Token>, marks: seq<bool>): seq<Token>
    requires |tokens| == |marks|
  {
    KeptIn(tokens, marks, 0, |tokens|)
  }

  ghost predicate ValidDiff(before: seq<Token>, after: seq<Token>, removed: seq<bool>, added: seq<bool>) {
    |before| == |removed| && |after| == |added| && Kept(before, removed) == Kept(after, added)
  }

  /** The windows `a[l1..h1]` and `b[l2..h2]` keep the same tokens under the markers `ma` and `mb`. */
  ghost predicate Agree(a: seq<Token>, ma: seq<bool>, l1: nat, h1: nat,
                        b: seq<Token>, mb: seq<bool>, l2: nat, h2: nat) {
    && l1 <= h1 <= |a| == |ma| && l2 <= h2 <= |b| == |mb|
    && KeptIn(a, ma, l1, h1) == KeptIn(b, mb, l2, h2)
  }

  predicate Unmarked(m: seq<bool>, l: nat, h: nat) { forall x :: l <= x < h && x < |m| ==> !m[x] }

  predicate AllMarked(m: seq<bool>, l: nat, h: nat) { forall x :: l <= x < h && x < |m| ==> m[x] }

  /** The markers `l..h` are the same. */
  predicate SameInside(m: seq<bool>, m': seq<bool>, l: nat, h: nat) {
    |m| == |m'| && forall x :: l <= x < h && x < |m| ==> m'[x] == m[x]
  }

  lemma {:induction false} KeptJoin(tokens: seq<Token>, marks: seq<bool>, l: nat, k: nat, h: nat)
    requires l <= k <= h <= |tokens| == |marks|
    ensures KeptIn(tokens, marks, l, h) == KeptIn(tokens, marks, l, k) + KeptIn(tokens, marks, k, h)
    decreases k - l
  {
    if l < k { KeptJoin(tokens, marks, l + 1, k, h); }
  }

  lemma {:induction false} KeptFrame(tokens: seq<Token>, m: seq<bool>, m': seq<bool>, l: nat, h: nat)
    requires l <= h <= |tokens| == |m| && SameInside(m, m', l, h)
    ensures KeptIn(tokens, m', l, h) == KeptIn(tokens, m, l, h)
    decreases h - l
  {
    if l < h {
      assert m'[l] == m[l];
      KeptFrame(tokens, m, m', l + 1, h);
    }
  }

  lemma {:induction false} KeptFits(tokens: seq<Token>, marks: seq<bool>, l: nat, h: nat)
    requires l <= h <= |tokens| == |marks|
    ensures |KeptIn(tokens, marks, l, h)| <= h - l
    decreases h - l
  {
    if l < h { KeptFits(tokens, marks, l + 1, h); }
  }

  lemma {:induction false} KeptNone(tokens: seq<Token>, marks: seq<bool>, l: nat, h: nat)
    requires l <= h <= |tokens| == |marks| && AllMarked(marks, l, h)
    ensures KeptIn(tokens, marks, l, h) == []
    decreases h - l
  {
    if l < h { KeptNone(tokens, marks, l + 1, h); }
  }

  /** The number of unmarked tokens among the first `n`. */
  function Free(marks: seq<bool>, n: nat): (c: nat)
    requires n <= |marks|
    ensures c <= n
  {
    if n == 0 then 0 else Free(marks, n - 1) + (if marks[n - 1] then 0 else 1)
  }

  lemma {:induction false} FreeMonotone(marks: seq<bool>, i: nat, j: nat)
    requires i <= j <= |marks|
    ensures Free(marks, i) <= Free(marks, j)
    decreases j
  {
    if i < j { FreeMonotone(marks, i, j - 1); }
  }

  lemma {:induction false} FreeOverMarked(marks: seq<bool>, i: nat, j: nat)
    requires i <= j <= |marks| && forall x :: i <= x < j ==> marks[x]
    ensures Free(marks, j) == Free(marks, i)
    decreases j
  {
    if i < j { FreeOverMarked(marks, i, j - 1); }
  }

  lemma {:induction false} FreeOverUnmarked(marks: seq<bool>, i: nat, j: nat)
    requires i <= j <= |marks| && forall x :: i <= x < j ==> !marks[x]
    ensures Free(marks, j) == Free(marks, i) + (j - i)
    decreases j
  {
    if i < j { FreeOverUnmarked(marks, i, j - 1); }
  }

  /** Every unmarked token is kept, so a diff keeps its counts when it keeps its tokens. */
  lemma {:induction false} KeptLength(tokens: seq<Token>, marks: seq<bool>, n: nat)
    requires n <= |tokens| == |marks|
    ensures |KeptIn(tokens, marks, 0, n)| == Free(marks, n)
  {
    if n > 0 {
      KeptLength(tokens, marks, n - 1);
      KeptJoin(tokens, marks, 0, n - 1, n);
      assert KeptIn(tokens, marks, n, n) == [];
    }
  }

  /** A maximal, possibly empty, run of marked tokens. */
  predicate IsRun(marks: seq<bool>, s: nat, e: nat) {
    && s <= e <= |marks|
    && (forall x :: s <= x < e ==> marks[x])
    && (s == 0 || !marks[s - 1])
    && (e == |marks| || !marks[e])
  }

  /** A run is determined by how many unmarked tokens precede it. */
  lemma RunUnique(marks: seq<bool>, s: nat, e: nat, s': nat, e': nat)
    requires IsRun(marks, s, e) && IsRun(marks, s', e') && Free(marks, s) == Free(marks, s')
    ensures s == s' && e == e'
  {
    if s < s' {
      FreeMonotone(marks, s, s' - 1);
    } else if s' < s {
      FreeMonotone(marks, s', s - 1);
    }
  }

  /** Runs in front of the end leave an unmarked token behind them, and so do the counts. */
  lemma FreeBehindRun(marks: seq<bool>, s: nat, e: nat)
    requires IsRun(marks, s, e)
    ensures Free(marks, s) == Free(marks, e)
    ensures e == |marks| <==> Free(marks, |marks|) == Free(marks, s)
    ensures s > 0 <==> Free(marks, s) > 0
  {
    FreeOverMarked(marks, s, e);
    if e < |marks| { FreeMonotone(marks, e + 1, |marks|); }
    if s > 0 { FreeMonotone(marks, 0, s - 1); }
  }

  // -------------------------------------------------------------------------------------------------
  // `gix-imara-diff/src/util.rs`
  // -------------------------------------------------------------------------------------------------

  method FindHunkEnd(marks: array<bool>, pos: nat) returns (e: nat)
    requires pos <= marks.Length
    ensures pos <= e <= marks.Length && (forall x :: pos <= x < e ==> marks[x]) && (e == marks.Length || !marks[e])
  {
    e := pos;
    while e < marks.Length && marks[e]
      invariant pos <= e <= marks.Length && forall x :: pos <= x < e ==> marks[x]
    {
      e := e + 1;
    }
  }

  method FindHunkStart(marks: array<bool>, pos: nat) returns (s: nat)
    requires pos <= marks.Length
    ensures s <= pos && (forall x :: s <= x < pos ==> marks[x]) && (s == 0 || !marks[s - 1])
  {
    s := pos;
    while s > 0 && marks[s - 1]
      invariant s <= pos && forall x :: s <= x < pos ==> marks[x]
    {
      s := s - 1;
    }
  }

  /** The distance to the next marked token, or to the end of the file. */
  method FindNextChange(marks: array<bool>, pos: nat) returns (found: bool, off: nat)
    requires pos <= marks.Length
    ensures pos + off <= marks.Length && (forall x :: pos <= x < pos + off ==> !marks[x])
    ensures if found then pos + off < marks.Length && marks[pos + off] else pos + off == marks.Length
  {
    off := 0;
    while pos + off < marks.Length && !marks[pos + off]
      invariant pos + off <= marks.Length && forall x :: pos <= x < pos + off ==> !marks[x]
    {
      off := off + 1;
    }
    found := pos + off < marks.Length;
  }

  // -------------------------------------------------------------------------------------------------
  // `util.rs`: common ends of two windows.
  // -------------------------------------------------------------------------------------------------

  /** `n` tokens from `a[i]` and `b[j]` on are the same. */
  predicate SameTokens(a: seq<Token>, i: nat, b: seq<Token>, j: nat, n: nat) {
    i + n <= |a| && j + n <= |b| && forall x :: i <= x < i + n ==> a[x] == b[x - i + j]
  }

  method CommonPrefix(a: seq<Token>, l1: nat, h1: nat, b: seq<Token>, l2: nat, h2: nat) returns (off: nat)
    requires l1 <= h1 <= |a| && l2 <= h2 <= |b|
    ensures l1 + off <= h1 && l2 + off <= h2 && SameTokens(a, l1, b, l2, off)
    ensures l1 + off < h1 && l2 + off < h2 ==> a[l1 + off] != b[l2 + off]
  {
    off := 0;
    while l1 + off < h1 && l2 + off < h2 && a[l1 + off] == b[l2 + off]
      invariant l1 + off <= h1 && l2 + off <= h2 && SameTokens(a, l1, b, l2, off)
    {
      off := off + 1;
    }
  }

  method CommonPostfix(a: seq<Token>, l1: nat, h1: nat, b: seq<Token>, l2: nat, h2: nat) returns (off: nat)
    requires l1 <= h1 <= |a| && l2 <= h2 <= |b|
    ensures l1 + off <= h1 && l2 + off <= h2 && SameTokens(a, h1 - off, b, h2 - off, off)
    ensures l1 + off < h1 && l2 + off < h2 ==> a[h1 - off - 1] != b[h2 - off - 1]
  {
    off := 0;
    while l1 + off < h1 && l2 + off < h2 && a[h1 - off - 1] == b[h2 - off - 1]
      invariant l1 + off <= h1 && l2 + off <= h2 && SameTokens(a, h1 - off, b, h2 - off, off)
    {
      off := off + 1;
    }
  }

  method CommonEdges(a: seq<Token>, l1: nat, h1: nat, b: seq<Token>, l2: nat, h2: nat)
    returns (prefix: nat, postfix: nat)
    requires l1 <= h1 <= |a| && l2 <= h2 <= |b|
    ensures l1 + prefix + postfix <= h1 && l2 + prefix + postfix <= h2
    ensures SameTokens(a, l1, b, l2, prefix) && SameTokens(a, h1 - postfix, b, h2 - postfix, postfix)
    ensures l1 + prefix < h1 && l2 + prefix < h2 ==> a[l1 + prefix] != b[l2 + prefix]
    ensures l1 + prefix + postfix < h1 && l2 + prefix + postfix < h2 ==> a[h1 - postfix - 1] != b[h2 - postfix - 1]
  {
    prefix := CommonPrefix(a, l1, h1, b, l2, h2);
    postfix := CommonPostfix(a, l1 + prefix, h1, b, l2 + prefix, h2);
  }
}
