/**
 * How large hunks are, and why those of a minimal diff are the smallest that turn one file into the other
 * (gix-imara-diff/src/lib.rs).
 */
module HunkSize {
  import opened DiffMarks
  import opened EditDistance
  import opened Hunks

  /** The number of tokens that hunks remove and add. */
  function Size(hs: seq<Hunk>): int {
    if hs == [] then 0
    else (hs[0].beforeEnd - hs[0].beforeStart) + (hs[0].afterEnd - hs[0].afterStart) + Size(hs[1..])
  }

  /** The hunks of a valid diff hold exactly what it does not keep. */
  lemma {:induction false} SizeOfDiff(before: seq<Token>, removed: seq<bool>, i: nat, after: seq<Token>,
                                      added: seq<bool>, j: nat)
    requires i <= |before| == |removed| && j <= |after| == |added|
    requires KeptIn(before, removed, i, |before|) == KeptIn(after, added, j, |after|)
    ensures Size(HunksFrom(removed, added, i, j, i, j))
         == (|before| - i) + (|after| - j) - 2 * |KeptIn(before, removed, i, |before|)|
    decreases (|before| - i) + (|after| - j)
  {
    var re, ae := Lead(removed, i), Lead(added, j);
    KeptHeads(before, removed, i, after, added, j);
    KeptBehindRun(before, removed, i);
    if re == |before| {
      HunksEnd(removed, added, i, j);
    } else {
      SizeOfDiff(before, removed, re + 1, after, added, ae + 1);
      HunksStep(removed, added, i, j);
      var rest := HunksFrom(removed, added, re + 1, ae + 1, re + 1, ae + 1);
      assert ([Hunk(i, re, j, ae)] + rest)[1..] == rest;
    }
  }

  /** The number of tokens of `before[i..]` that hunks leave alone. */
  function Unchanged(n: nat, hs: seq<Hunk>, i: nat): int
    decreases |hs|
  {
    if hs == [] then n - i else hs[0].beforeStart - i + Unchanged(n, hs[1..], hs[0].beforeEnd)
  }

  /** An unchanged part in front, and something new behind it, leave the rest in common. */
  lemma LcsAhead(before: seq<Token>, i: nat, k: nat, e: nat, r: seq<Token>, n: nat, s: nat)
    requires i <= k <= e <= |before| && n == k - i && n <= s <= |r| && SameTokens(before, i, r, 0, n)
    ensures n + Lcs(before, e, |before|, r, s, |r|) <= Lcs(before, i, |before|, r, 0, |r|)
  {
    LcsPrefix(before, i, |before|, r, 0, |r|, n);
    LcsJoins(before, k, e, |before|, r, n, s, |r|);
  }

  /** A common subsequence with the end of a sequence is one with the end alone. */
  lemma LcsOfEnd(before: seq<Token>, e: nat, rest: seq<Token>, r: seq<Token>, s: nat)
    requires e <= |before| && s + |rest| == |r| && SameTokens(rest, 0, r, s, |rest|)
    ensures Lcs(before, e, |before|, rest, 0, |rest|) == Lcs(before, e, |before|, r, s, |r|)
  {
    LcsSame(before, e, rest, 0, before, e, r, s, |before| - e, |rest|);
  }

  lemma PartsAreSame(before: seq<Token>, i: nat, k: nat, text: seq<Token>, rest: seq<Token>, r: seq<Token>)
    requires i <= k <= |before| && r == before[i..k] + text + rest
    ensures SameTokens(before, i, r, 0, k - i) && SameTokens(rest, 0, r, k - i + |text|, |rest|)
  {
    forall x | i <= x < k
      ensures before[x] == r[x - i + 0]
    {
      assert before[i..k][x - i] == before[x];
    }
  }

  /** Common tokens in front of a hunk come on top of those behind it. */
  lemma UnchangedStep(before: seq<Token>, i: nat, k: nat, e: nat, text: seq<Token>, rest: seq<Token>, r: seq<Token>,
                      u: int)
    requires i <= k <= e <= |before| && r == before[i..k] + text + rest
    requires u <= Lcs(before, e, |before|, rest, 0, |rest|)
    ensures k - i + u <= Lcs(before, i, |before|, r, 0, |r|)
  {
    var n, s := k - i, k - i + |text|;
    PartsAreSame(before, i, k, text, rest, r);
    LcsOfEnd(before, e, rest, r, s);
    LcsAhead(before, i, k, e, r, n, s);
  }

  lemma RestIsOrdered(hs: seq<Hunk>, i: nat, j: nat, n: nat, m: nat)
    requires hs != [] && Ordered(hs, i, j, n, m)
    ensures Ordered(hs[1..], hs[0].beforeEnd, hs[0].afterEnd, n, m)
  {
    OrderedEarlier(hs[1..], hs[0].beforeEnd, hs[0].afterEnd, n, m);
  }

  /** What hunks leave alone occurs in what they produce. */
  lemma {:induction false} UnchangedIsCommon(before: seq<Token>, after: seq<Token>, hs: seq<Hunk>, i: nat, j: nat)
    requires i <= |before| && Ordered(hs, i, j, |before|, |after|)
    ensures var r := Apply(before, after, hs, i); Unchanged(|before|, hs, i) <= Lcs(before, i, |before|, r, 0, |r|)
    decreases |hs|
  {
    if hs == [] {
      UnchangedStep(before, i, |before|, |before|, [], [], before[i..], 0);
    } else {
      var h, rest := hs[0], hs[1..];
      RestIsOrdered(hs, i, j, |before|, |after|);
      UnchangedIsCommon(before, after, rest, h.beforeEnd, h.afterEnd);
      UnchangedStep(before, i, h.beforeStart, h.beforeEnd, after[h.afterStart..h.afterEnd],
                    Apply(before, after, rest, h.beforeEnd), Apply(before, after, hs, i),
                    Unchanged(|before|, rest, h.beforeEnd));
    }
  }

  /** What hunks leave alone, and how long their result is, shows how large they are. */
  lemma {:induction false} SizeOfHunks(before: seq<Token>, after: seq<Token>, hs: seq<Hunk>, i: nat, j: nat)
    requires i <= |before| && Ordered(hs, i, j, |before|, |after|)
    ensures Size(hs) == (|before| - i) + |Apply(before, after, hs, i)| - 2 * Unchanged(|before|, hs, i)
    decreases |hs|
  {
    if hs != [] {
      RestIsOrdered(hs, i, j, |before|, |after|);
      SizeOfHunks(before, after, hs[1..], hs[0].beforeEnd, hs[0].afterEnd);
    }
  }

  /** Hunks that turn one file into the other hold at least as many tokens as have to be marked. */
  lemma HunksAreEdits(before: seq<Token>, after: seq<Token>, hs: seq<Hunk>)
    requires Ordered(hs, 0, 0, |before|, |after|) && Apply(before, after, hs, 0) == after
    ensures Distance(before, 0, |before|, after, 0, |after|) <= Size(hs)
  {
    SizeOfHunks(before, after, hs, 0, 0);
    UnchangedIsCommon(before, after, hs, 0, 0);
  }

  /** Hunks of a diff that keeps as much as possible are the smallest that turn one file into the other. */
  lemma MinimalIsSmallest(before: seq<Token>, removed: seq<bool>, after: seq<Token>, added: seq<bool>, hs: seq<Hunk>)
    requires ValidDiff(before, after, removed, added)
          && |Kept(before, removed)| == Lcs(before, 0, |before|, after, 0, |after|)
    requires Ordered(hs, 0, 0, |before|, |after|) && Apply(before, after, hs, 0) == after
    ensures Size(HunksFrom(removed, added, 0, 0, 0, 0)) <= Size(hs)
  {
    SizeOfDiff(before, removed, 0, after, added, 0);
    HunksAreEdits(before, after, hs);
  }
}
