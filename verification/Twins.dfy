/**
 * Twins of a diff: equal tokens that are marked on both sides of the same hunk. Diffs that keep as much as possible
 * have none.
 */
module Twins {
  import opened DiffMarks
  import opened EditDistance

  /** Equal marked tokens behind equally many unmarked ones of the windows that start at `l1` and `l2`. */
  predicate AreTwins(before: seq<Token>, m1: seq<bool>, l1: nat, x: nat, after: seq<Token>, m2: seq<bool>, l2: nat,
                     y: nat)
  {
    && l1 <= x < |before| == |m1| && l2 <= y < |after| == |m2| && m1[x] && m2[y] && before[x] == after[y]
    && |KeptIn(before, m1, l1, x)| == |KeptIn(after, m2, l2, y)|
  }

  /** No twins in the windows but those that `lost` admits. */
  ghost predicate NoTwins(before: seq<Token>, m1: seq<bool>, l1: nat, h1: nat,
                          after: seq<Token>, m2: seq<bool>, l2: nat, h2: nat, lost: (nat, nat) -> bool)
  {
    forall x: nat, y: nat :: x < h1 && y < h2 && AreTwins(before, m1, l1, x, after, m2, l2, y) ==> lost(x, y)
  }

  /** What is done elsewhere makes no twins. */
  lemma TwinsStable(before: seq<Token>, m1: seq<bool>, m1': seq<bool>, l1: nat, h1: nat,
                    after: seq<Token>, m2: seq<bool>, m2': seq<bool>, l2: nat, h2: nat, lost: (nat, nat) -> bool)
    requires l1 <= h1 <= |before| == |m1| && l2 <= h2 <= |after| == |m2|
    requires SameInside(m1, m1', l1, h1) && SameInside(m2, m2', l2, h2)
    requires NoTwins(before, m1, l1, h1, after, m2, l2, h2, lost)
    ensures NoTwins(before, m1', l1, h1, after, m2', l2, h2, lost)
  {
    forall x: nat, y: nat | x < h1 && y < h2 && AreTwins(before, m1', l1, x, after, m2', l2, y)
      ensures lost(x, y)
    {
      KeptFrame(before, m1, m1', l1, x);
      KeptFrame(after, m2, m2', l2, y);
      assert AreTwins(before, m1, l1, x, after, m2, l2, y);
    }
  }

  /** The windows up to `i` and `j` are empty, or both end with an unmarked token. */
  predicate Closed(m1: seq<bool>, l1: nat, i: nat, m2: seq<bool>, l2: nat, j: nat) {
    (l1 == i && l2 == j) || (l1 < i <= |m1| && l2 < j <= |m2| && !m1[i - 1] && !m2[j - 1])
  }

  /** Twins do not meet across an unmarked token. */
  lemma TwinsJoin(before: seq<Token>, m1: seq<bool>, l1: nat, i: nat, h1: nat,
                  after: seq<Token>, m2: seq<bool>, l2: nat, j: nat, h2: nat, lost: (nat, nat) -> bool)
    requires l1 <= i <= h1 <= |before| == |m1| && l2 <= j <= h2 <= |after| == |m2|
    requires Agree(before, m1, l1, i, after, m2, l2, j) && Closed(m1, l1, i, m2, l2, j)
    requires NoTwins(before, m1, l1, i, after, m2, l2, j, lost) && NoTwins(before, m1, i, h1, after, m2, j, h2, lost)
    ensures NoTwins(before, m1, l1, h1, after, m2, l2, h2, lost)
  {
    forall x: nat, y: nat | x < h1 && y < h2 && AreTwins(before, m1, l1, x, after, m2, l2, y)
      ensures lost(x, y)
    {
      if x >= i && y >= j {
        KeptJoin(before, m1, l1, i, x);
        KeptJoin(after, m2, l2, j, y);
        assert AreTwins(before, m1, i, x, after, m2, j, y);
      } else if x < i && y >= j {
        FewerKept(before, m1, l1, x, i);
        KeptJoin(after, m2, l2, j, y);
      } else if x >= i && y < j {
        FewerKept(after, m2, l2, y, j);
        KeptJoin(before, m1, l1, i, x);
      }
    }
  }

  /** In front of an unmarked token, fewer are kept. */
  lemma FewerKept(tokens: seq<Token>, m: seq<bool>, l: nat, x: nat, i: nat)
    requires l <= x < i <= |tokens| == |m| && !m[i - 1]
    ensures |KeptIn(tokens, m, l, x)| < |KeptIn(tokens, m, l, i)|
  {
    KeptJoin(tokens, m, l, x, i);
    KeptLast(tokens, m, x, i);
  }

  lemma TwinsUnshared(before: seq<Token>, m1: seq<bool>, l1: nat, h1: nat,
                      after: seq<Token>, m2: seq<bool>, l2: nat, h2: nat, lost: (nat, nat) -> bool)
    requires l1 <= h1 <= |before| && l2 <= h2 <= |after|
    requires forall k :: 0 <= k < h2 - l2 ==> after[l2..h2][k] !in before[l1..h1]
    ensures NoTwins(before, m1, l1, h1, after, m2, l2, h2, lost)
  {
    forall x: nat, y: nat | x < h1 && y < h2
      ensures !AreTwins(before, m1, l1, x, after, m2, l2, y)
    {
      if l1 <= x && l2 <= y {
        assert after[l2..h2][y - l2] == after[y] && before[l1..h1][x - l1] == before[x];
      }
    }
  }

  /** Windows that keep a longest common subsequence have no twins: twins could be kept as well. */
  lemma LcsHasNoTwins(before: seq<Token>, m1: seq<bool>, l1: nat, h1: nat,
                      after: seq<Token>, m2: seq<bool>, l2: nat, h2: nat, x: nat, y: nat)
    requires Agree(before, m1, l1, h1, after, m2, l2, h2)
    requires |KeptIn(before, m1, l1, h1)| == Lcs(before, l1, h1, after, l2, h2)
    requires l1 <= x < h1 && l2 <= y < h2
    ensures !AreTwins(before, m1, l1, x, after, m2, l2, y)
  {
    if AreTwins(before, m1, l1, x, after, m2, l2, y) {
      Halves(before, m1, l1, h1, after, m2, l2, h2, x, y);
      KeptIsCommon(before, m1, l1, x, after, m2, l2, y);
      KeptIsCommon(before, m1, x + 1, h1, after, m2, y + 1, h2);
      LcsJoins(before, l1, x, x + 1, after, l2, y, y + 1);
      LcsJoins(before, l1, x + 1, h1, after, l2, y + 1, h2);
    }
  }

  /** What is kept in front of twins is equal, and so is what is kept behind them. */
  lemma Halves(before: seq<Token>, m1: seq<bool>, l1: nat, h1: nat,
               after: seq<Token>, m2: seq<bool>, l2: nat, h2: nat, x: nat, y: nat)
    requires Agree(before, m1, l1, h1, after, m2, l2, h2) && l1 <= x < h1 && l2 <= y < h2
    requires AreTwins(before, m1, l1, x, after, m2, l2, y)
    ensures KeptIn(before, m1, l1, x) == KeptIn(after, m2, l2, y)
    ensures KeptIn(before, m1, x + 1, h1) == KeptIn(after, m2, y + 1, h2)
    ensures |KeptIn(before, m1, l1, h1)| == |KeptIn(before, m1, l1, x)| + |KeptIn(before, m1, x + 1, h1)|
  {
    KeptJoin(before, m1, l1, x, h1);
    KeptJoin(after, m2, l2, y, h2);
    assert KeptIn(before, m1, x, h1) == KeptIn(before, m1, x + 1, h1);
    assert KeptIn(after, m2, y, h2) == KeptIn(after, m2, y + 1, h2);
    SplitEqual(KeptIn(before, m1, l1, x), KeptIn(before, m1, x, h1),
               KeptIn(after, m2, l2, y), KeptIn(after, m2, y, h2));
  }

  lemma SplitEqual<T>(a: seq<T>, b: seq<T>, c: seq<T>, d: seq<T>)
    requires a + b == c + d && |a| == |c|
    ensures a == c && b == d
  {
    assert a == (a + b)[..|a|] && b == (a + b)[|a|..] && c == (c + d)[..|c|] && d == (c + d)[|c|..];
  }

  /** In whole files, twins are in the same hunk: equally many tokens are unmarked in front of them. */
  lemma TwinsOfFiles(before: seq<Token>, m1: seq<bool>, x: nat, after: seq<Token>, m2: seq<bool>, y: nat)
    requires x < |before| == |m1| && y < |after| == |m2|
    ensures AreTwins(before, m1, 0, x, after, m2, 0, y) <==>
              m1[x] && m2[y] && before[x] == after[y] && Free(m1, x) == Free(m2, y)
  {
    KeptLength(before, m1, x);
    KeptLength(after, m2, y);
  }
}
