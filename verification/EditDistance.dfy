/**
 * Longest common subsequences of windows of two files, and the number of edits they leave: what
 * `gix-imara-diff/src/lib.rs` promises of a minimal edit sequence is measured by them.
 */
module EditDistance {
  import opened DiffMarks

  predicate Windows(a: seq<Token>, l1: nat, h1: nat, b: seq<Token>, l2: nat, h2: nat) {
    l1 <= h1 <= |a| && l2 <= h2 <= |b|
  }

  function Max(x: nat, y: nat): nat {
    if x < y then y else x
  }

  /** The length of a longest common subsequence of `a[l1..h1]` and `b[l2..h2]`. */
  function Lcs(a: seq<Token>, l1: nat, h1: nat, b: seq<Token>, l2: nat, h2: nat): nat
    requires Windows(a, l1, h1, b, l2, h2)
    decreases h1 + h2
  {
    if l1 == h1 || l2 == h2 then 0
    else if a[h1 - 1] == b[h2 - 1] then 1 + Lcs(a, l1, h1 - 1, b, l2, h2 - 1)
    else Max(Lcs(a, l1, h1 - 1, b, l2, h2), Lcs(a, l1, h1, b, l2, h2 - 1))
  }

  /** One token more adds at most one. */
  lemma {:induction false} LcsGrows(a: seq<Token>, l1: nat, h1: nat, b: seq<Token>, l2: nat, h2: nat)
    requires Windows(a, l1, h1, b, l2, h2)
    ensures l1 < h1 ==> Lcs(a, l1, h1 - 1, b, l2, h2) <= Lcs(a, l1, h1, b, l2, h2) <= Lcs(a, l1, h1 - 1, b, l2, h2) + 1
    ensures l2 < h2 ==> Lcs(a, l1, h1, b, l2, h2 - 1) <= Lcs(a, l1, h1, b, l2, h2) <= Lcs(a, l1, h1, b, l2, h2 - 1) + 1
    decreases h1 + h2
  {
    if l1 < h1 && l2 < h2 {
      LcsGrows(a, l1, h1 - 1, b, l2, h2);
      LcsGrows(a, l1, h1, b, l2, h2 - 1);
      LcsGrows(a, l1, h1 - 1, b, l2, h2 - 1);
    }
  }

  lemma {:induction false} LcsBelow(a: seq<Token>, l1: nat, x: nat, h1: nat, b: seq<Token>, l2: nat, y: nat, h2: nat)
    requires Windows(a, l1, h1, b, l2, h2) && l1 <= x <= h1 && l2 <= y <= h2
    ensures Lcs(a, l1, x, b, l2, y) <= Lcs(a, l1, h1, b, l2, h2)
    decreases h1 + h2
  {
    LcsGrows(a, l1, h1, b, l2, h2);
    if x < h1 {
      LcsBelow(a, l1, x, h1 - 1, b, l2, y, h2);
    } else if y < h2 {
      LcsBelow(a, l1, x, h1, b, l2, y, h2 - 1);
    }
  }

  /** Common subsequences can be joined. */
  lemma {:induction false} LcsJoins(a: seq<Token>, l1: nat, x: nat, h1: nat, b: seq<Token>, l2: nat, y: nat, h2: nat)
    requires Windows(a, l1, h1, b, l2, h2) && l1 <= x <= h1 && l2 <= y <= h2
    ensures Lcs(a, l1, x, b, l2, y) + Lcs(a, x, h1, b, y, h2) <= Lcs(a, l1, h1, b, l2, h2)
    decreases h1 + h2
  {
    if x == h1 || y == h2 {
      LcsBelow(a, l1, x, h1, b, l2, y, h2);
    } else if a[h1 - 1] == b[h2 - 1] {
      LcsJoins(a, l1, x, h1 - 1, b, l2, y, h2 - 1);
    } else {
      LcsJoins(a, l1, x, h1 - 1, b, l2, y, h2);
      LcsJoins(a, l1, x, h1, b, l2, y, h2 - 1);
    }
  }

  /** A token in front adds one if it matches, and takes nothing away. */
  lemma LcsInFront(a: seq<Token>, l1: nat, h1: nat, b: seq<Token>, l2: nat, h2: nat)
    requires Windows(a, l1, h1, b, l2, h2)
    ensures l1 < h1 ==> Lcs(a, l1 + 1, h1, b, l2, h2) <= Lcs(a, l1, h1, b, l2, h2)
    ensures l2 < h2 ==> Lcs(a, l1, h1, b, l2 + 1, h2) <= Lcs(a, l1, h1, b, l2, h2)
    ensures l1 < h1 && l2 < h2 && a[l1] == b[l2] ==> 1 + Lcs(a, l1 + 1, h1, b, l2 + 1, h2) <= Lcs(a, l1, h1, b, l2, h2)
  {
    if l1 < h1 { LcsJoins(a, l1, l1 + 1, h1, b, l2, l2, h2); }
    if l2 < h2 { LcsJoins(a, l1, l1, h1, b, l2, l2 + 1, h2); }
    if l1 < h1 && l2 < h2 && a[l1] == b[l2] {
      LcsJoins(a, l1, l1 + 1, h1, b, l2, l2 + 1, h2);
      assert Lcs(a, l1, l1 + 1, b, l2, l2 + 1) == 1 + Lcs(a, l1, l1, b, l2, l2);
    }
  }

  // -------------------------------------------------------------------------------------------------
  // Reversed files and parts of files.
  // -------------------------------------------------------------------------------------------------

  function Mirror(s: seq<Token>): (r: seq<Token>)
    ensures |r| == |s|
  {
    seq(|s|, i requires 0 <= i < |s| => s[|s| - 1 - i])
  }

  lemma {:induction false} LcsMirrorBelow(a: seq<Token>, l1: nat, h1: nat, b: seq<Token>, l2: nat, h2: nat,
                                          p: seq<Token>, x: nat, u: nat, q: seq<Token>, y: nat, v: nat)
    requires Windows(a, l1, h1, b, l2, h2) && p == Mirror(a) && q == Mirror(b)
    requires x == |a| - h1 && u == |a| - l1 && y == |b| - h2 && v == |b| - l2
    ensures Lcs(a, l1, h1, b, l2, h2) <= Lcs(p, x, u, q, y, v)
    decreases h1 + h2
  {
    if l1 < h1 && l2 < h2 {
      LcsInFront(p, x, u, q, y, v);
      assert p[x] == a[h1 - 1] && q[y] == b[h2 - 1];
      if a[h1 - 1] == b[h2 - 1] {
        LcsMirrorBelow(a, l1, h1 - 1, b, l2, h2 - 1, p, x + 1, u, q, y + 1, v);
      } else {
        LcsMirrorBelow(a, l1, h1 - 1, b, l2, h2, p, x + 1, u, q, y, v);
        LcsMirrorBelow(a, l1, h1, b, l2, h2 - 1, p, x, u, q, y + 1, v);
      }
    }
  }

  lemma MirrorTwice(s: seq<Token>)
    ensures Mirror(Mirror(s)) == s
  {}

  /** Reading both files backwards changes nothing. */
  lemma LcsMirrored(a: seq<Token>, l1: nat, h1: nat, b: seq<Token>, l2: nat, h2: nat)
    requires Windows(a, l1, h1, b, l2, h2)
    ensures Lcs(Mirror(a), |a| - h1, |a| - l1, Mirror(b), |b| - h2, |b| - l2) == Lcs(a, l1, h1, b, l2, h2)
  {
    var p, q := Mirror(a), Mirror(b);
    MirrorTwice(a);
    MirrorTwice(b);
    var x, u, y, v := |a| - h1, |a| - l1, |b| - h2, |b| - l2;
    LcsMirrorBelow(a, l1, h1, b, l2, h2, p, x, u, q, y, v);
    LcsMirrorBelow(p, x, u, q, y, v, a, l1, h1, b, l2, h2);
  }

  /** Windows of the same tokens have the same length. */
  lemma {:induction false} LcsSame(a: seq<Token>, l1: nat, b: seq<Token>, l2: nat, a': seq<Token>, l1': nat,
                                   b': seq<Token>, l2': nat, n: nat, m: nat)
    requires SameTokens(a, l1, a', l1', n) && SameTokens(b, l2, b', l2', m)
    ensures Lcs(a, l1, l1 + n, b, l2, l2 + m) == Lcs(a', l1', l1' + n, b', l2', l2' + m)
    decreases n + m
  {
    if n > 0 && m > 0 {
      assert a[l1 + n - 1] == a'[l1' + n - 1] && b[l2 + m - 1] == b'[l2' + m - 1];
      if a[l1 + n - 1] == b[l2 + m - 1] {
        LcsSame(a, l1, b, l2, a', l1', b', l2', n - 1, m - 1);
      } else {
        LcsSame(a, l1, b, l2, a', l1', b', l2', n - 1, m);
        LcsSame(a, l1, b, l2, a', l1', b', l2', n, m - 1);
      }
    }
  }

  /** Common tokens at the end count in full. */
  lemma {:induction false} LcsPostfix(a: seq<Token>, l1: nat, h1: nat, b: seq<Token>, l2: nat, h2: nat, n: nat)
    requires l1 + n <= h1 <= |a| && l2 + n <= h2 <= |b| && SameTokens(a, h1 - n, b, h2 - n, n)
    ensures Lcs(a, l1, h1, b, l2, h2) == Lcs(a, l1, h1 - n, b, l2, h2 - n) + n
    decreases n
  {
    if n > 0 {
      assert a[h1 - 1] == b[h2 - 1];
      LcsPostfix(a, l1, h1 - 1, b, l2, h2 - 1, n - 1);
    }
  }

  /** ... and so do those at the start. */
  lemma LcsPrefix(a: seq<Token>, l1: nat, h1: nat, b: seq<Token>, l2: nat, h2: nat, n: nat)
    requires l1 + n <= h1 <= |a| && l2 + n <= h2 <= |b| && SameTokens(a, l1, b, l2, n)
    ensures Lcs(a, l1, h1, b, l2, h2) == n + Lcs(a, l1 + n, h1, b, l2 + n, h2)
  {
    var p, q := Mirror(a), Mirror(b);
    var x, y := |a| - l1, |b| - l2;
    forall k | x - n <= k < x
      ensures p[k] == q[k - (x - n) + (y - n)]
    {
      assert a[|a| - 1 - k] == b[(|a| - 1 - k) - l1 + l2];
    }
    LcsMirrored(a, l1, h1, b, l2, h2);
    LcsMirrored(a, l1 + n, h1, b, l2 + n, h2);
    LcsPostfix(p, |a| - h1, x, q, |b| - h2, y, n);
  }

  /** A token that does not occur in the other window adds nothing. */
  lemma {:induction false} LcsAbsent(a: seq<Token>, l1: nat, h1: nat, b: seq<Token>, l2: nat, h2: nat)
    requires Windows(a, l1, h1, b, l2, h2) && l1 < h1 && forall y :: l2 <= y < h2 ==> b[y] != a[h1 - 1]
    ensures Lcs(a, l1, h1, b, l2, h2) == Lcs(a, l1, h1 - 1, b, l2, h2)
    decreases h2
  {
    if l2 < h2 {
      LcsAbsent(a, l1, h1, b, l2, h2 - 1);
      LcsGrows(a, l1, h1 - 1, b, l2, h2);
    }
  }

  lemma {:induction false} LcsAbsentAfter(a: seq<Token>, l1: nat, h1: nat, b: seq<Token>, l2: nat, h2: nat)
    requires Windows(a, l1, h1, b, l2, h2) && l2 < h2 && forall x :: l1 <= x < h1 ==> a[x] != b[h2 - 1]
    ensures Lcs(a, l1, h1, b, l2, h2) == Lcs(a, l1, h1, b, l2, h2 - 1)
    decreases h1
  {
    if l1 < h1 {
      LcsAbsentAfter(a, l1, h1 - 1, b, l2, h2);
      LcsGrows(a, l1, h1, b, l2, h2 - 1);
    }
  }

  // -------------------------------------------------------------------------------------------------
  // What diffs keep.
  // -------------------------------------------------------------------------------------------------

  /** The number of tokens that at least have to be marked in two windows. */
  function Distance(a: seq<Token>, l1: nat, h1: nat, b: seq<Token>, l2: nat, h2: nat): int
    requires Windows(a, l1, h1, b, l2, h2)
  {
    (h1 - l1) + (h2 - l2) - 2 * Lcs(a, l1, h1, b, l2, h2)
  }

  /** Common ends need no edits. */
  lemma DistanceBetween(a: seq<Token>, l1: nat, e1: nat, h1: nat, b: seq<Token>, l2: nat, e2: nat, h2: nat, off: nat)
    requires l1 + off <= e1 <= h1 <= |a| && l2 + off <= e2 <= h2 <= |b| && h1 - e1 == h2 - e2
    requires SameTokens(a, l1, b, l2, off) && SameTokens(a, e1, b, e2, h1 - e1)
    ensures Distance(a, l1 + off, e1, b, l2 + off, e2) == Distance(a, l1, h1, b, l2, h2)
  {
    LcsPostfix(a, l1, h1, b, l2, h2, h1 - e1);
    LcsPrefix(a, l1, e1, b, l2, e2, off);
  }

  /** Windows that keep the same tokens keep a common subsequence. */
  lemma {:induction false} KeptIsCommon(a: seq<Token>, ma: seq<bool>, l1: nat, h1: nat,
                                        b: seq<Token>, mb: seq<bool>, l2: nat, h2: nat)
    requires Windows(a, l1, h1, b, l2, h2) && |ma| == |a| && |mb| == |b|
    requires KeptIn(a, ma, l1, h1) == KeptIn(b, mb, l2, h2)
    ensures |KeptIn(a, ma, l1, h1)| <= Lcs(a, l1, h1, b, l2, h2)
    decreases h1 + h2
  {
    LcsGrows(a, l1, h1, b, l2, h2);
    if l1 < h1 { KeptLast(a, ma, l1, h1); }
    if l2 < h2 { KeptLast(b, mb, l2, h2); }
    if l1 < h1 && ma[h1 - 1] {
      KeptIsCommon(a, ma, l1, h1 - 1, b, mb, l2, h2);
    } else if l2 < h2 && mb[h2 - 1] {
      KeptIsCommon(a, ma, l1, h1, b, mb, l2, h2 - 1);
    } else if l1 < h1 && l2 < h2 {
      var p, q := KeptIn(a, ma, l1, h1 - 1), KeptIn(b, mb, l2, h2 - 1);
      assert (p + [a[h1 - 1]])[|p|] == (q + [b[h2 - 1]])[|q|];
      assert p == (p + [a[h1 - 1]])[..|p|] == (q + [b[h2 - 1]])[..|q|] == q;
      KeptIsCommon(a, ma, l1, h1 - 1, b, mb, l2, h2 - 1);
    }
  }

  lemma KeptLast(tokens: seq<Token>, marks: seq<bool>, l: nat, h: nat)
    requires l < h <= |tokens| == |marks|
    ensures KeptIn(tokens, marks, l, h)
         == KeptIn(tokens, marks, l, h - 1) + (if marks[h - 1] then [] else [tokens[h - 1]])
  {
    KeptJoin(tokens, marks, l, h - 1, h);
    assert KeptIn(tokens, marks, h, h) == [];
  }

  /** Marked tokens of the first window do not occur in the second. */
  predicate Foreign(a: seq<Token>, m: seq<bool>, l1: nat, h1: nat, b: seq<Token>, l2: nat, h2: nat) {
    forall x, y :: l1 <= x < h1 && l2 <= y < h2 && x < |a| && x < |m| && y < |b| && m[x] ==> b[y] != a[x]
  }

  /** Where the last token of a window goes among those that are kept. */
  lemma KeptPrefix(a: seq<Token>, m: seq<bool>, l: nat, h: nat, p: seq<Token>)
    requires l < h <= |a| == |m| && KeptIn(a, m, l, h) <= p
    ensures KeptIn(a, m, l, h - 1) <= p
    ensures var n := |KeptIn(a, m, l, h - 1)|;
            if m[h - 1] then |KeptIn(a, m, l, h)| == n else |KeptIn(a, m, l, h)| == n + 1 && p[n] == a[h - 1]
  {
    KeptLast(a, m, l, h);
  }

  /** Tokens without a counterpart can be dropped. */
  lemma {:induction false} DroppingKeepsCommon(a: seq<Token>, ma: seq<bool>, l1: nat, h1: nat, p: seq<Token>,
                                               b: seq<Token>, mb: seq<bool>, l2: nat, h2: nat, q: seq<Token>)
    requires Windows(a, l1, h1, b, l2, h2) && |ma| == |a| && |mb| == |b|
    requires Foreign(a, ma, l1, h1, b, l2, h2) && Foreign(b, mb, l2, h2, a, l1, h1)
    requires KeptIn(a, ma, l1, h1) <= p && KeptIn(b, mb, l2, h2) <= q
    ensures Lcs(a, l1, h1, b, l2, h2) <= Lcs(p, 0, |KeptIn(a, ma, l1, h1)|, q, 0, |KeptIn(b, mb, l2, h2)|)
    decreases h1 + h2
  {
    if l1 < h1 && l2 < h2 {
      KeptPrefix(a, ma, l1, h1, p);
      KeptPrefix(b, mb, l2, h2, q);
      if ma[h1 - 1] {
        LcsAbsent(a, l1, h1, b, l2, h2);
        DroppingKeepsCommon(a, ma, l1, h1 - 1, p, b, mb, l2, h2, q);
      } else if mb[h2 - 1] {
        LcsAbsentAfter(a, l1, h1, b, l2, h2);
        DroppingKeepsCommon(a, ma, l1, h1, p, b, mb, l2, h2 - 1, q);
      } else if a[h1 - 1] == b[h2 - 1] {
        DroppingKeepsCommon(a, ma, l1, h1 - 1, p, b, mb, l2, h2 - 1, q);
      } else {
        DroppingKeepsCommon(a, ma, l1, h1 - 1, p, b, mb, l2, h2, q);
        DroppingKeepsCommon(a, ma, l1, h1, p, b, mb, l2, h2 - 1, q);
      }
    }
  }
}
