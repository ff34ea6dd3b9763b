/**
 * The whole of a `gix-imara-diff` diff: interning the lines of two files, computing and sliding the markers and
 * reading off the hunks, whatever the algorithm and the heuristics.
 */
module LineDiff {
  import opened DiffMarks
  import opened HunkSize
  import opened Hunks
  import opened Sequences
  import DE = DiffEngine
  import ED = EditDistance
  import Histogram
  import Interner
  import MS = MiddleSnake
  import Slider
  import SliderPlaces

  /** Applying hunks to numbers and to the values they stand for comes to the same. */
  lemma {:induction false} ApplyNumbered<T>(a: seq<nat>, before: seq<T>, b: seq<nat>, after: seq<T>, tokens: seq<T>,
                                            hs: seq<Hunk>, from: nat)
    requires Interner.Numbers(a, before, tokens) && Interner.Numbers(b, after, tokens)
    ensures Interner.Numbers(Apply(a, b, hs, from), Apply(before, after, hs, from), tokens)
    decreases |hs|
  {
    if hs != [] {
      ApplyNumbered(a, before, b, after, tokens, hs[1..], hs[0].beforeEnd);
      var h := hs[0];
      var a1 := if from <= h.beforeStart <= |a| then a[from..h.beforeStart] else [];
      var v1 := if from <= h.beforeStart <= |a| then before[from..h.beforeStart] else [];
      var a2 := if h.afterStart <= h.afterEnd <= |b| then b[h.afterStart..h.afterEnd] else [];
      var v2 := if h.afterStart <= h.afterEnd <= |b| then after[h.afterStart..h.afterEnd] else [];
      NumbersJoin(a1, v1, a2, v2, tokens);
      NumbersJoin(a1 + a2, v1 + v2, Apply(a, b, hs[1..], h.beforeEnd), Apply(before, after, hs[1..], h.beforeEnd),
                  tokens);
    }
  }

  lemma NumbersJoin<T>(a: seq<nat>, x: seq<T>, b: seq<nat>, y: seq<T>, tokens: seq<T>)
    requires Interner.Numbers(a, x, tokens) && Interner.Numbers(b, y, tokens)
    ensures Interner.Numbers(a + b, x + y, tokens)
  {
  }

  /** Values have only one sequence of numbers. */
  lemma NumbersDetermined<T>(a: seq<nat>, b: seq<nat>, x: seq<T>, tokens: seq<T>)
    requires Interner.Distinct(tokens) && Interner.Numbers(a, x, tokens) && Interner.Numbers(b, x, tokens)
    ensures a == b
  {
    forall k | 0 <= k < |a|
      ensures a[k] == b[k]
    {
      Interner.NumbersAreEqual(a, b, x, x, tokens, k, k);
    }
  }

  /** The hunks of markers, in order. */
  method AllHunks(removed: seq<bool>, added: seq<bool>) returns (hunks: seq<Hunk>)
    ensures hunks == HunksFrom(removed, added, 0, 0, 0, 0)
  {
    var iter := new HunkIter(removed, added);
    ghost var all := iter.Coming();
    hunks := [];
    var next := iter.Next();
    while next.Some?
      invariant iter.Valid() && fresh(iter)
      invariant if next.Some? then all == hunks + ([next.value] + iter.Coming()) else all == hunks
      decreases if next.Some? then |iter.Coming()| + 1 else 0
    {
      Regroup(hunks, [next.value], iter.Coming());
      hunks := hunks + [next.value];
      next := iter.Next();
    }
  }

  /** The hunks turn one file into the other. */
  ghost predicate Rebuilt<T>(before: seq<T>, after: seq<T>, hs: seq<Hunk>) {
    Ordered(hs, 0, 0, |before|, |after|) && Apply(before, after, hs, 0) == after
  }

  lemma RebuiltNumbers<T>(a: seq<nat>, before: seq<T>, b: seq<nat>, after: seq<T>, tokens: seq<T>, hs: seq<Hunk>)
    requires Interner.Numbers(a, before, tokens) && Interner.Numbers(b, after, tokens) && Interner.Distinct(tokens)
    requires Rebuilt(before, after, hs)
    ensures Rebuilt(a, b, hs)
  {
    ApplyNumbered(a, before, b, after, tokens, hs, 0);
    NumbersDetermined(Apply(a, b, hs, 0), b, after, tokens);
  }

  /** Only lines that the other file does not have are pruned. */
  ghost predicate Unpruned<T>(prune: nat -> bool, file: seq<T>, other: seq<T>) {
    forall x: nat, y: nat :: x < |file| && y < |other| && prune(x) ==> other[y] != file[x]
  }

  lemma NothingPruned<T>(a: seq<nat>, before: seq<T>, b: seq<nat>, after: seq<T>, tokens: seq<T>, prune: nat -> bool)
    requires Interner.Numbers(a, before, tokens) && Interner.Numbers(b, after, tokens) && Unpruned(prune, before, after)
    ensures DE.PrunesForeign(prune, a, 0, |a|, b, 0, |b|)
  {}

  /** Few hunks mean few edits. */
  lemma FewEdits<T>(a: seq<nat>, before: seq<T>, b: seq<nat>, after: seq<T>, tokens: seq<T>, n: nat)
    requires Interner.Numbers(a, before, tokens) && Interner.Numbers(b, after, tokens) && Interner.Distinct(tokens)
    requires exists hs :: Rebuilt(before, after, hs) && Size(hs) <= n
    ensures ED.Distance(a, 0, |a|, b, 0, |b|) <= n
  {
    var hs :| Rebuilt(before, after, hs) && Size(hs) <= n;
    RebuiltNumbers(a, before, b, after, tokens, hs);
    HunksAreEdits(a, b, hs);
  }

  /** No hunks that turn one file into the other are smaller. */
  ghost predicate Smallest<T>(before: seq<T>, after: seq<T>, hunks: seq<Hunk>) {
    forall hs :: Rebuilt(before, after, hs) ==> Size(hunks) <= Size(hs)
  }

  /** Few enough edits for Myers without its heuristics, and no shared lines pruned. */
  ghost predicate Manageable<T>(before: seq<T>, after: seq<T>, prune: nat -> bool, prune': nat -> bool, maxCost: nat) {
    && Unpruned(prune, before, after) && Unpruned(prune', after, before)
    && exists hs :: Rebuilt(before, after, hs) && Size(hs) <= 2 * MS.Patience(maxCost)
  }

  lemma ManageableIsExact<T>(a: seq<nat>, before: seq<T>, b: seq<nat>, after: seq<T>, tokens: seq<T>,
                             prune: nat -> bool, prune': nat -> bool, maxCost: nat)
    requires Interner.Numbers(a, before, tokens) && Interner.Numbers(b, after, tokens) && Interner.Distinct(tokens)
    requires Manageable(before, after, prune, prune', maxCost)
    ensures DE.Exact(false, maxCost, prune, prune', a, 0, |a|, b, 0, |b|)
  {
    NothingPruned(a, before, b, after, tokens, prune);
    NothingPruned(b, after, a, before, tokens, prune');
    FewEdits(a, before, b, after, tokens, 2 * MS.Patience(maxCost));
  }

  lemma KeptIsSmallest<T>(a: seq<nat>, before: seq<T>, removed: seq<bool>, b: seq<nat>, after: seq<T>, added: seq<bool>,
                          tokens: seq<T>, hunks: seq<Hunk>)
    requires Interner.Numbers(a, before, tokens) && Interner.Numbers(b, after, tokens) && Interner.Distinct(tokens)
    requires ValidDiff(a, b, removed, added) && hunks == HunksFrom(removed, added, 0, 0, 0, 0)
    requires |Kept(a, removed)| == ED.Lcs(a, 0, |a|, b, 0, |b|)
    ensures Smallest(before, after, hunks)
  {
    forall hs | Rebuilt(before, after, hs)
      ensures Size(hunks) <= Size(hs)
    {
      RebuiltNumbers(a, before, b, after, tokens, hs);
      MinimalIsSmallest(a, removed, b, added, hs);
    }
  }

  /** The markers of interned lines, slid into place if that is asked for. */
  method Mark(a: seq<nat>, b: seq<nat>, algorithm: Histogram.Algorithm, prune: nat -> bool, prune': nat -> bool,
              maxCost: nat, slide: bool, heuristic: SliderPlaces.Heuristic)
    returns (removed: array<bool>, added: array<bool>)
    requires |a| < MS.I32_MAX && |b| < MS.I32_MAX && SliderPlaces.Serves(heuristic)
    ensures ValidDiff(a, b, removed[..], added[..])
    ensures algorithm == Histogram.ByMyersMinimal
            || (algorithm == Histogram.ByMyers && DE.Exact(false, maxCost, prune, prune', a, 0, |a|, b, 0, |b|)) ==>
              |Kept(a, removed[..])| == ED.Lcs(a, 0, |a|, b, 0, |b|)
  {
    removed, added := Histogram.ComputeWith(algorithm, a, b, prune, prune', maxCost);
    if slide {
      Slider.PostprocessWith(a, b, removed, added, heuristic);
    }
  }

  /**
   * The hunks between two files turn the one into the other, for every algorithm and all heuristics; and no hunks that
   * do so are smaller than those of the minimal algorithm, or of Myers if there are few of them.
   */
  method Diff<T(==)>(hash: T -> int, before: seq<T>, after: seq<T>, algorithm: Histogram.Algorithm,
                     prune: nat -> bool, prune': nat -> bool, maxCost: nat,
                     slide: bool, heuristic: SliderPlaces.Heuristic)
    returns (hunks: seq<Hunk>)
    requires |before| < MS.I32_MAX && |after| < MS.I32_MAX && SliderPlaces.Serves(heuristic)
    ensures Rebuilt(before, after, hunks)
    ensures algorithm == Histogram.ByMyersMinimal ==> Smallest(before, after, hunks)
    ensures algorithm == Histogram.ByMyers && Manageable(before, after, prune, prune', maxCost) ==>
              Smallest(before, after, hunks)
  {
    var interner := new Interner.Interner<T>(hash);
    var a := Interner.InternAll(interner, before);
    ghost var known := interner.tokens;
    var b := Interner.InternAll(interner, after);
    Interner.NumbersGrow(a, before, known, interner.tokens);
    if Manageable(before, after, prune, prune', maxCost) {
      ManageableIsExact(a, before, b, after, interner.tokens, prune, prune', maxCost);
    }
    var removed, added := Mark(a, b, algorithm, prune, prune', maxCost, slide, heuristic);
    hunks := AllHunks(removed[..], added[..]);
    ValidDiffRebuilds(a, removed[..], b, added[..]);
    ApplyNumbered(a, before, b, after, interner.tokens, hunks, 0);
    if |Kept(a, removed[..])| == ED.Lcs(a, 0, |a|, b, 0, |b|) {
      KeptIsSmallest(a, before, removed[..], b, after, added[..], interner.tokens, hunks);
    }
  }
}
