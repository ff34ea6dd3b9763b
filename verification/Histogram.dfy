/**
 * `gix-imara-diff/src/histogram.rs` and `histogram/lcs.rs`: a diff around the common block whose tokens are
 * rarest, with Myers as the way out for files in which everything is frequent.
 */
module Histogram {
  import opened DiffMarks
  import opened DiffEngine
  import opened RarestBlock
  import opened Twins
  import ED = EditDistance
  import MS = MiddleSnake
  import opened Wrappers

  class Histogram {
    /** Where each token occurs; at most `MAX_CHAIN_LEN + 1` places per token. */
    var occurrences: Occurrences

    constructor ()
      ensures occurrences == map[]
    {
      occurrences := map[];
    }

    method Clear()
      modifies this
      ensures occurrences == map[]
    {
      occurrences := map[];
    }

    method Populate(file: seq<Token>)
      requires occurrences == map[]
      modifies this
      ensures occurrences == HistogramOf(file)
    {
      for i := 0 to |file|
        invariant occurrences == RecordsOf(file, i)
      {
        RecordsNext(file, i, occurrences);
        var t := file[i];
        if t !in occurrences {
          occurrences := occurrences[t := [i]];
        } else if |occurrences[t]| <= MAX_CHAIN_LEN {
          occurrences := occurrences[t := occurrences[t] + [i]];
        }
      }
    }

    function NumOccurrences(t: Token): nat
      reads this
    {
      Num(occurrences, t)
    }
  }

  class LcsSearch {
    var lcs: Lcs
    var minOccurrences: nat
    var foundCs: bool

    constructor ()
      ensures Best(lcs, minOccurrences) == NOTHING && !foundCs
    {
      lcs, minOccurrences, foundCs := Lcs(0, 0, 0), MAX_CHAIN_LEN + 1, false;
    }

    /** The common block around `before[i]` and `after[pos]`, as long as possible, and how rare its tokens are. */
    method Extend(h: Histogram, before: seq<Token>, i: nat, after: seq<Token>, pos: nat)
      returns (block: Lcs, rarest: nat)
      requires i < |before| && pos < |after| && before[i] == after[pos]
      ensures block == BlockAt(before, i, after, pos) && rarest == RarestOf(h.occurrences, before, block)
    {
      var start1, start2, rare := ExtendBack(h, before, i, after, pos);
      var end1, end2 := i + 1, pos + 1;
      rarest := rare;
      while end1 < |before| && end2 < |after| && before[end1] == after[end2]
        invariant i < end1 <= |before| && pos < end2 <= |after| && end1 - i == end2 - pos
        invariant Ahead(before, i, after, pos) == end1 - i + Ahead(before, end1, after, end2)
        invariant rarest == Rarest(h.occurrences, before, start1, end1)
      {
        var n := h.NumOccurrences(before[end1]);
        rarest := if n < rarest then n else rarest;
        end1, end2 := end1 + 1, end2 + 1;
      }
      block := Lcs(start1, start2, end2 - start2);
    }

    /** Where the common block around `before[i]` and `after[pos]` starts. */
    method ExtendBack(h: Histogram, before: seq<Token>, i: nat, after: seq<Token>, pos: nat)
      returns (start1: nat, start2: nat, rarest: nat)
      requires i < |before| && pos < |after| && before[i] == after[pos]
      ensures var n := Back(before, i, after, pos); start1 == i - n && start2 == pos - n
      ensures rarest == Rarest(h.occurrences, before, start1, i + 1)
    {
      rarest := h.NumOccurrences(after[pos]);
      start1, start2 := i, pos;
      while start1 > 0 && start2 > 0 && before[start1 - 1] == after[start2 - 1]
        invariant start1 <= i && start2 <= pos && i - start1 == pos - start2
        invariant Back(before, i, after, pos) == i - start1 + Back(before, start1, after, start2)
        invariant rarest == Rarest(h.occurrences, before, start1, i + 1)
      {
        RarestInFront(h.occurrences, before, start1, i + 1);
        start1, start2 := start1 - 1, start2 - 1;
        var n := h.NumOccurrences(before[start1]);
        rarest := if n < rarest then n else rarest;
      }
    }

    method UpdateLcs(pos: nat, h: Histogram, before: seq<Token>, after: seq<Token>) returns (next: nat)
      requires pos < |after| && Indexes(h.occurrences, before)
      modifies this
      ensures (Best(lcs, minOccurrences), next)
              == Tried(h.occurrences, before, after, pos, PlacesOf(h.occurrences, after[pos]), 0,
                       old(Best(lcs, minOccurrences)), pos + 1)
      ensures foundCs == old(foundCs)
    {
      next := pos + 1;
      var places := PlacesOf(h.occurrences, after[pos]);
      assert Occurs(before, after[pos], places);
      ghost var all := Tried(h.occurrences, before, after, pos, places, 0, Best(lcs, minOccurrences), next);
      var k := 0;
      while k < |places|
        invariant all == Tried(h.occurrences, before, after, pos, places, k, Best(lcs, minOccurrences), next)
        invariant foundCs == old(foundCs)
        decreases |places| - k
      {
        k, next := TryPlace(h, before, after, pos, places, k, next, all);
      }
      TriedEnd(h.occurrences, before, after, pos, places, k, Best(lcs, minOccurrences), next);
    }

    /** Tries one block around `after[pos]` and finds the place to go on with. */
    method TryPlace(h: Histogram, before: seq<Token>, after: seq<Token>, pos: nat, places: seq<nat>, k: nat, next: nat,
                    ghost all: (Best, nat))
      returns (k': nat, next': nat)
      requires pos < |after| && Occurs(before, after[pos], places) && k < |places|
      requires all == Tried(h.occurrences, before, after, pos, places, k, Best(lcs, minOccurrences), next)
      modifies this
      ensures k' > k && foundCs == old(foundCs)
      ensures all == Tried(h.occurrences, before, after, pos, places, k', Best(lcs, minOccurrences), next')
    {
      ghost var best := Best(lcs, minOccurrences);
      var block := TryBlock(h, before, places[k], after, pos);
      var end2 := block.afterStart + block.len;
      next' := if next < end2 then end2 else next;
      TriedStep(h.occurrences, before, after, pos, places, k, best, next, block, Best(lcs, minOccurrences), next');
      k' := SkipPlaces(places, k + 1, end2);
    }

    method TryBlock(h: Histogram, before: seq<Token>, i: nat, after: seq<Token>, pos: nat) returns (block: Lcs)
      requires i < |before| && pos < |after| && before[i] == after[pos]
      modifies this
      ensures block == BlockAt(before, i, after, pos) && foundCs == old(foundCs)
      ensures Best(lcs, minOccurrences)
              == Better(old(Best(lcs, minOccurrences)), block, RarestOf(h.occurrences, before, block))
    {
      var rarest;
      block, rarest := Extend(h, before, i, after, pos);
      if lcs.len < block.len || minOccurrences > rarest {
        minOccurrences, lcs := rarest, block;
      }
    }

    /** The next place behind `end`. */
    method SkipPlaces(places: seq<nat>, from: nat, end: nat) returns (k: nat)
      ensures k == SkipTo(places, from, end)
    {
      k := from;
      while k < |places| && places[k] <= end
        invariant SkipTo(places, k, end) == SkipTo(places, from, end)
      {
        k := k + 1;
      }
    }

    /** One step of the search. */
    method SearchAt(pos: nat, h: Histogram, before: seq<Token>, after: seq<Token>) returns (next: nat)
      requires Indexes(h.occurrences, before) && pos < |after|
      modifies this
      ensures next > pos
      ensures Searched(h.occurrences, before, after, next, Best(lcs, minOccurrences), foundCs)
              == Searched(h.occurrences, before, after, pos, old(Best(lcs, minOccurrences)), old(foundCs))
    {
      var n := h.NumOccurrences(after[pos]);
      if n != 0 {
        foundCs := true;
        if n <= minOccurrences {
          SearchedTry(h.occurrences, before, after, pos, Best(lcs, minOccurrences), old(foundCs));
          next := UpdateLcs(pos, h, before, after);
          return;
        }
      }
      SearchedPast(h.occurrences, before, after, pos, Best(lcs, minOccurrences), old(foundCs));
      next := pos + 1;
    }

    method Run(before: seq<Token>, after: seq<Token>, h: Histogram)
      requires Indexes(h.occurrences, before) && Best(lcs, minOccurrences) == NOTHING && !foundCs
      modifies this, h
      ensures h.occurrences == map[]
      ensures (Best(lcs, minOccurrences), foundCs) == Searched(old(h.occurrences), before, after, 0, NOTHING, false)
    {
      ghost var occ := h.occurrences;
      var pos := 0;
      while pos < |after|
        invariant h.occurrences == occ
        invariant Searched(occ, before, after, pos, Best(lcs, minOccurrences), foundCs)
                  == Searched(occ, before, after, 0, NOTHING, false)
        decreases |after| - pos
      {
        pos := SearchAt(pos, h, before, after);
      }
      SearchedEnd(occ, before, after, pos, Best(lcs, minOccurrences), foundCs);
      h.Clear();
    }
  }

  lemma {:induction false} RarestInFront(h: Occurrences, file: seq<Token>, s: nat, e: nat)
    requires 0 < s < e <= |file|
    ensures var n, r := Num(h, file[s - 1]), Rarest(h, file, s, e); Rarest(h, file, s - 1, e) == if n < r then n else r
    decreases e
  {
    if s + 1 < e { RarestInFront(h, file, s, e - 1); }
  }

  /** `find_lcs`. */
  method FindLcs(before: seq<Token>, after: seq<Token>, h: Histogram) returns (r: Option<Lcs>)
    requires h.occurrences == HistogramOf(before)
    modifies h
    ensures h.occurrences == map[] && r == BlockOf(before, after)
  {
    HistogramIndexes(before);
    var search := new LcsSearch();
    search.Run(before, after, h);
    r := if !search.foundCs || search.minOccurrences <= MAX_CHAIN_LEN then Some(search.lcs) else None;
  }

  // -------------------------------------------------------------------------------------------------
  // Dividing by blocks.
  // -------------------------------------------------------------------------------------------------

  /** Windows in which the search gives up and Myers may overlook two equal tokens. */
  ghost predicate GaveUp(before: seq<Token>, l1: nat, h1: nat, after: seq<Token>, l2: nat, h2: nat,
                         prune: nat -> bool, prune': nat -> bool, maxCost: nat, x: nat, y: nat)
  {
    && Stuck(before, l1, h1, after, l2, h2)
    && !Exact(false, maxCost, prune, prune', before, l1, h1, after, l2, h2)
    && (prune(x) || prune'(y) || !MS.Thorough(false, maxCost, (h1 - l1) + (h2 - l2)))
  }

  ghost predicate Stuck(before: seq<Token>, l1: nat, h1: nat, after: seq<Token>, l2: nat, h2: nat) {
    l1 <= h1 <= |before| && l2 <= h2 <= |after| && BlockOf(before[l1..h1], after[l2..h2]).None?
  }

  ghost predicate Lost(before: seq<Token>, after: seq<Token>, prune: nat -> bool, prune': nat -> bool, maxCost: nat,
                       x: nat, y: nat)
  {
    exists l1: nat, h1: nat, l2: nat, h2: nat ::
      l1 <= x < h1 && l2 <= y < h2 && GaveUp(before, l1, h1, after, l2, h2, prune, prune', maxCost, x, y)
  }

  ghost function LostIn(before: seq<Token>, after: seq<Token>, prune: nat -> bool, prune': nat -> bool, maxCost: nat)
    : (nat, nat) -> bool
  {
    (x: nat, y: nat) => Lost(before, after, prune, prune', maxCost, x, y)
  }

  /** The state of `Histogram::run`: the windows below `i` and `j` are done, the rest is unmarked. */
  ghost predicate Done(before: seq<Token>, m1: seq<bool>, m1': seq<bool>, l1: nat, i: nat, h1: nat,
                       after: seq<Token>, m2: seq<bool>, m2': seq<bool>, l2: nat, j: nat, h2: nat,
                       lost: (nat, nat) -> bool) {
    && l1 <= i <= h1 <= |before| == |m1| && l2 <= j <= h2 <= |after| == |m2|
    && SameOutside(m1, m1', l1, i) && SameOutside(m2, m2', l2, j)
    && Unmarked(m1', i, h1) && Unmarked(m2', j, h2)
    && Agree(before, m1', l1, i, after, m2', l2, j) && NoTwins(before, m1', l1, i, after, m2', l2, j, lost)
  }

  /** Whatever settles the next windows up to `i'` and `j'` extends what is done. */
  lemma DoneAdvance(before: seq<Token>, m1: seq<bool>, m1': seq<bool>, m1'': seq<bool>, l1: nat, i: nat, i': nat,
                    h1: nat, after: seq<Token>, m2: seq<bool>, m2': seq<bool>, m2'': seq<bool>, l2: nat, j: nat,
                    j': nat, h2: nat, lost: (nat, nat) -> bool)
    requires Done(before, m1, m1', l1, i, h1, after, m2, m2', l2, j, h2, lost) && i <= i' <= h1 && j <= j' <= h2
    requires Closed(m1', l1, i, m2', l2, j) && SameOutside(m1', m1'', i, i') && SameOutside(m2', m2'', j, j')
    requires Agree(before, m1'', i, i', after, m2'', j, j') && NoTwins(before, m1'', i, i', after, m2'', j, j', lost)
    ensures Done(before, m1, m1'', l1, i', h1, after, m2, m2'', l2, j', h2, lost)
  {
    AgreeStable(before, m1', m1'', l1, i, after, m2', m2'', l2, j);
    AgreeJoin(before, m1'', l1, i, i', after, m2'', l2, j, j');
    TwinsStable(before, m1', m1'', l1, i, after, m2', m2'', l2, j, lost);
    TwinsJoin(before, m1'', l1, i, i', after, m2'', l2, j, j', lost);
  }

  /** `Histogram::run` on the windows `l1..h1` and `l2..h2`. */
  method HistogramRun(h: Histogram, before: seq<Token>, l1: nat, h1: nat, removed: array<bool>,
                      after: seq<Token>, l2: nat, h2: nat, added: array<bool>,
                      prune: nat -> bool, prune': nat -> bool, maxCost: nat, ghost lost: (nat, nat) -> bool)
    requires removed != added && removed.Length == |before| < MS.I32_MAX && added.Length == |after| < MS.I32_MAX
    requires l1 <= h1 <= |before| && l2 <= h2 <= |after| && Unmarked(removed[..], l1, h1) && Unmarked(added[..], l2, h2)
    requires h.occurrences == map[]
    requires lost == LostIn(before, after, prune, prune', maxCost)
    modifies h, removed, added
    ensures h.occurrences == map[]
    ensures Agree(before, removed[..], l1, h1, after, added[..], l2, h2)
    ensures NoTwins(before, removed[..], l1, h1, after, added[..], l2, h2, lost)
    ensures SameOutside(old(removed[..]), removed[..], l1, h1) && SameOutside(old(added[..]), added[..], l2, h2)
    decreases (h1 - l1) + (h2 - l2)
  {
    var i: nat, j: nat, done := l1, l2, false;
    ghost var m1, m2 := removed[..], added[..];
    while !done
      invariant h.occurrences == map[]
      invariant Done(before, m1, removed[..], l1, i, h1, after, m2, added[..], l2, j, h2, lost)
      invariant if done then i == h1 && j == h2 else Closed(removed[..], l1, i, added[..], l2, j)
      decreases !done, (h1 - i) + (h2 - j)
    {
      ghost var n1, n2 := removed[..], added[..];
      var i', j' := i, j;
      done, i', j' := HistogramRound(h, before, i, h1, removed, after, j, h2, added, prune, prune', maxCost, lost);
      DoneAdvance(before, m1, n1, removed[..], l1, i, i', h1, after, m2, n2, added[..], l2, j, j', h2, lost);
      i, j := i', j';
    }
  }

  /** One round: the windows in front of a common block are diffed, and the block itself is left unmarked. */
  method HistogramRound(h: Histogram, before: seq<Token>, l1: nat, h1: nat, removed: array<bool>,
                        after: seq<Token>, l2: nat, h2: nat, added: array<bool>,
                        prune: nat -> bool, prune': nat -> bool, maxCost: nat, ghost lost: (nat, nat) -> bool)
    returns (done: bool, i: nat, j: nat)
    requires removed != added && removed.Length == |before| < MS.I32_MAX && added.Length == |after| < MS.I32_MAX
    requires l1 <= h1 <= |before| && l2 <= h2 <= |after| && Unmarked(removed[..], l1, h1) && Unmarked(added[..], l2, h2)
    requires h.occurrences == map[]
    requires lost == LostIn(before, after, prune, prune', maxCost)
    modifies h, removed, added
    ensures h.occurrences == map[]
    ensures l1 <= i <= h1 && l2 <= j <= h2
    ensures if done then i == h1 && j == h2 else l1 < i && l2 < j && !removed[i - 1] && !added[j - 1]
    ensures Agree(before, removed[..], l1, i, after, added[..], l2, j)
    ensures NoTwins(before, removed[..], l1, i, after, added[..], l2, j, lost)
    ensures SameOutside(old(removed[..]), removed[..], l1, i) && SameOutside(old(added[..]), added[..], l2, j)
    decreases (h1 - l1) + (h2 - l2), 1
  {
    done, i, j := true, h1, h2;
    if l1 == h1 || l2 == h2 {
      MarkRest(before, l1, h1, removed, after, l2, h2, added, lost);
      return;
    }
    var lcs := SearchWindows(h, before, l1, h1, after, l2, h2);
    if lcs.None? {
      FallBack(before, l1, h1, removed, after, l2, h2, added, prune, prune', maxCost, lost);
    } else if lcs.value.len == 0 {
      MarkBoth(before, l1, h1, removed, after, l2, h2, added, lcs.value, lost);
    } else {
      done := false;
      i, j := HistogramUpTo(h, before, l1, h1, removed, after, l2, h2, added, lcs.value, prune, prune', maxCost, lost);
    }
  }

  /** The block to divide two windows by. */
  method SearchWindows(h: Histogram, before: seq<Token>, l1: nat, h1: nat, after: seq<Token>, l2: nat, h2: nat)
    returns (lcs: Option<Lcs>)
    requires l1 <= h1 <= |before| && l2 <= h2 <= |after| && h.occurrences == map[]
    modifies h
    ensures h.occurrences == map[] && lcs == BlockOf(before[l1..h1], after[l2..h2])
  {
    h.Populate(before[l1..h1]);
    lcs := FindLcs(before[l1..h1], after[l2..h2], h);
  }

  /** One of the windows is empty. */
  method MarkRest(before: seq<Token>, l1: nat, h1: nat, removed: array<bool>,
                  after: seq<Token>, l2: nat, h2: nat, added: array<bool>, ghost lost: (nat, nat) -> bool)
    requires removed != added && removed.Length == |before| && added.Length == |after| && (l1 == h1 || l2 == h2)
    requires l1 <= h1 <= |before| && l2 <= h2 <= |after|
    modifies removed, added
    ensures Agree(before, removed[..], l1, h1, after, added[..], l2, h2)
    ensures NoTwins(before, removed[..], l1, h1, after, added[..], l2, h2, lost)
    ensures SameOutside(old(removed[..]), removed[..], l1, h1) && SameOutside(old(added[..]), added[..], l2, h2)
  {
    if l1 == h1 { Fill(added, l2, h2); } else { Fill(removed, l1, h1); }
    AgreeMarked(before, removed[..], l1, h1, after, added[..], l2, h2);
  }

  /** The windows share no token. */
  method MarkBoth(before: seq<Token>, l1: nat, h1: nat, removed: array<bool>,
                  after: seq<Token>, l2: nat, h2: nat, added: array<bool>, ghost block: Lcs,
                  ghost lost: (nat, nat) -> bool)
    requires removed != added && removed.Length == |before| && added.Length == |after|
    requires l1 <= h1 <= |before| && l2 <= h2 <= |after|
    requires BlockOf(before[l1..h1], after[l2..h2]) == Some(block) && block.len == 0
    modifies removed, added
    ensures Agree(before, removed[..], l1, h1, after, added[..], l2, h2)
    ensures NoTwins(before, removed[..], l1, h1, after, added[..], l2, h2, lost)
    ensures SameOutside(old(removed[..]), removed[..], l1, h1) && SameOutside(old(added[..]), added[..], l2, h2)
  {
    Fill(added, l2, h2);
    Fill(removed, l1, h1);
    AgreeMarked(before, removed[..], l1, h1, after, added[..], l2, h2);
    BlockIsCommon(before[l1..h1], after[l2..h2], block);
    TwinsUnshared(before, removed[..], l1, h1, after, added[..], l2, h2, lost);
  }

  /** The search gave up. */
  method FallBack(before: seq<Token>, l1: nat, h1: nat, removed: array<bool>,
                  after: seq<Token>, l2: nat, h2: nat, added: array<bool>,
                  prune: nat -> bool, prune': nat -> bool, maxCost: nat, ghost lost: (nat, nat) -> bool)
    requires removed != added && removed.Length == |before| < MS.I32_MAX && added.Length == |after| < MS.I32_MAX
    requires l1 <= h1 <= |before| && l2 <= h2 <= |after| && Unmarked(removed[..], l1, h1) && Unmarked(added[..], l2, h2)
    requires BlockOf(before[l1..h1], after[l2..h2]).None?
    requires lost == LostIn(before, after, prune, prune', maxCost)
    modifies removed, added
    ensures Agree(before, removed[..], l1, h1, after, added[..], l2, h2)
    ensures NoTwins(before, removed[..], l1, h1, after, added[..], l2, h2, lost)
    ensures SameOutside(old(removed[..]), removed[..], l1, h1) && SameOutside(old(added[..]), added[..], l2, h2)
  {
    MyersDiff(before, l1, h1, removed, after, l2, h2, added, prune, prune', false, maxCost);
    FallbackTwins(before, removed[..], l1, h1, after, added[..], l2, h2, prune, prune', maxCost);
  }

  /** What Myers leaves is exact, or lost in the window. */
  lemma FallbackTwins(before: seq<Token>, m1: seq<bool>, l1: nat, h1: nat,
                      after: seq<Token>, m2: seq<bool>, l2: nat, h2: nat,
                      prune: nat -> bool, prune': nat -> bool, maxCost: nat)
    requires Agree(before, m1, l1, h1, after, m2, l2, h2) && BlockOf(before[l1..h1], after[l2..h2]).None?
    requires Exact(false, maxCost, prune, prune', before, l1, h1, after, l2, h2) ==>
               |KeptIn(before, m1, l1, h1)| == ED.Lcs(before, l1, h1, after, l2, h2)
    requires NoTwins(before, m1, l1, h1, after, m2, l2, h2,
                     Overlooked(prune, prune', !MS.Thorough(false, maxCost, (h1 - l1) + (h2 - l2))))
    ensures NoTwins(before, m1, l1, h1, after, m2, l2, h2, LostIn(before, after, prune, prune', maxCost))
  {
    var lost := LostIn(before, after, prune, prune', maxCost);
    forall x: nat, y: nat | x < h1 && y < h2 && AreTwins(before, m1, l1, x, after, m2, l2, y)
      ensures lost(x, y)
    {
      if Exact(false, maxCost, prune, prune', before, l1, h1, after, l2, h2) {
        LcsHasNoTwins(before, m1, l1, h1, after, m2, l2, h2, x, y);
      } else {
        assert GaveUp(before, l1, h1, after, l2, h2, prune, prune', maxCost, x, y);
      }
    }
  }

  /** The diff in front of a common block, and the block itself. */
  method HistogramUpTo(h: Histogram, before: seq<Token>, l1: nat, h1: nat, removed: array<bool>,
                       after: seq<Token>, l2: nat, h2: nat, added: array<bool>, block: Lcs,
                       prune: nat -> bool, prune': nat -> bool, maxCost: nat, ghost lost: (nat, nat) -> bool)
    returns (i: nat, j: nat)
    requires removed != added && removed.Length == |before| < MS.I32_MAX && added.Length == |after| < MS.I32_MAX
    requires l1 <= h1 <= |before| && l2 <= h2 <= |after| && Unmarked(removed[..], l1, h1) && Unmarked(added[..], l2, h2)
    requires BlockOf(before[l1..h1], after[l2..h2]) == Some(block) && block.len > 0
    requires h.occurrences == map[]
    requires lost == LostIn(before, after, prune, prune', maxCost)
    modifies h, removed, added
    ensures h.occurrences == map[]
    ensures l1 < i <= h1 && l2 < j <= h2 && !removed[i - 1] && !added[j - 1]
    ensures Agree(before, removed[..], l1, i, after, added[..], l2, j)
    ensures NoTwins(before, removed[..], l1, i, after, added[..], l2, j, lost)
    ensures SameOutside(old(removed[..]), removed[..], l1, i) && SameOutside(old(added[..]), added[..], l2, j)
    decreases (h1 - l1) + (h2 - l2), 0
  {
    BlockInWindow(before, l1, h1, after, l2, h2, block);
    var s1, s2 := l1 + block.beforeStart, l2 + block.afterStart;
    i, j := s1 + block.len, s2 + block.len;
    HistogramRun(h, before, l1, s1, removed, after, l2, s2, added, prune, prune', maxCost, lost);
    AgreeEqual(before, removed[..], s1, after, added[..], s2, block.len);
    AgreeJoin(before, removed[..], l1, s1, i, after, added[..], l2, s2, j);
  }

  /** A common block of windows is one of the files. */
  lemma BlockOfFiles(before: seq<Token>, l1: nat, h1: nat, after: seq<Token>, l2: nat, h2: nat, b: Lcs)
    requires l1 <= h1 <= |before| && l2 <= h2 <= |after| && IsBlock(before[l1..h1], after[l2..h2], b)
    ensures var s1, s2 := l1 + b.beforeStart, l2 + b.afterStart;
            s1 + b.len <= h1 && s2 + b.len <= h2 && SameTokens(before, s1, after, s2, b.len)
  {
    var s1, s2 := l1 + b.beforeStart, l2 + b.afterStart;
    forall x | s1 <= x < s1 + b.len
      ensures before[x] == after[x - s1 + s2]
    {
      assert before[l1..h1][x - l1] == before[x] && after[l2..h2][x - s1 + b.afterStart] == after[x - s1 + s2];
    }
  }

  lemma BlockInWindow(before: seq<Token>, l1: nat, h1: nat, after: seq<Token>, l2: nat, h2: nat, b: Lcs)
    requires l1 <= h1 <= |before| && l2 <= h2 <= |after|
    requires BlockOf(before[l1..h1], after[l2..h2]) == Some(b) && b.len > 0
    ensures var s1, s2 := l1 + b.beforeStart, l2 + b.afterStart;
            s1 + b.len <= h1 && s2 + b.len <= h2 && SameTokens(before, s1, after, s2, b.len)
  {
    BlockIsCommon(before[l1..h1], after[l2..h2], b);
    BlockOfFiles(before, l1, h1, after, l2, h2, b);
  }

  datatype Algorithm = ByHistogram | ByMyers | ByMyersMinimal

  /** The histogram arm of `Diff::compute_with`: the common ends are stripped before the diff. */
  method HistogramDiff(before: seq<Token>, removed: array<bool>, after: seq<Token>, added: array<bool>,
                       prune: nat -> bool, prune': nat -> bool, maxCost: nat)
    requires removed != added && removed.Length == |before| < MS.I32_MAX && added.Length == |after| < MS.I32_MAX
    requires Unmarked(removed[..], 0, |before|) && Unmarked(added[..], 0, |after|)
    modifies removed, added
    ensures Agree(before, removed[..], 0, |before|, after, added[..], 0, |after|)
    ensures PrefixKept(before, removed[..], 0, |before|, after, added[..], 0, |after|)
    ensures NoTwins(before, removed[..], 0, |before|, after, added[..], 0, |after|,
                    LostIn(before, after, prune, prune', maxCost))
  {
    var off, post := CommonEdges(before, 0, |before|, after, 0, |after|);
    var h := new Histogram();
    ghost var lost := LostIn(before, after, prune, prune', maxCost);
    HistogramRun(h, before, off, |before| - post, removed, after, off, |after| - post, added, prune, prune', maxCost,
                 lost);
    EdgesHaveNoTwins(before, old(removed[..]), removed[..], after, old(added[..]), added[..], off, post, lost);
  }

  /** Common ends are neither marked nor make twins. */
  lemma EdgesHaveNoTwins(before: seq<Token>, m1: seq<bool>, m1': seq<bool>,
                         after: seq<Token>, m2: seq<bool>, m2': seq<bool>, off: nat, post: nat,
                         lost: (nat, nat) -> bool)
    requires off + post <= |before| == |m1| && off + post <= |after| == |m2|
    requires SameTokens(before, 0, after, 0, off) && SameTokens(before, |before| - post, after, |after| - post, post)
    requires off < |before| && off < |after| ==> before[off] != after[off]
    requires Unmarked(m1, 0, |before|) && SameOutside(m1, m1', off, |before| - post)
    requires Unmarked(m2, 0, |after|) && SameOutside(m2, m2', off, |after| - post)
    requires Agree(before, m1', off, |before| - post, after, m2', off, |after| - post)
    requires NoTwins(before, m1', off, |before| - post, after, m2', off, |after| - post, lost)
    ensures Agree(before, m1', 0, |before|, after, m2', 0, |after|)
    ensures PrefixKept(before, m1', 0, |before|, after, m2', 0, |after|)
    ensures NoTwins(before, m1', 0, |before|, after, m2', 0, |after|, lost)
  {
    EdgesDone(before, m1, m1', 0, |before|, after, m2, m2', 0, |after|, off, post);
    TwinsBetween(before, m1', 0, |before|, after, m2', 0, |after|, off, post, lost);
  }

  /** Where twins remain, the search gave up: they are frequent, or follow a frequent token in both files. */
  lemma LostMeans(before: seq<Token>, after: seq<Token>, prune: nat -> bool, prune': nat -> bool, maxCost: nat,
                  x: nat, y: nat)
    requires x < |before| && y < |after| && before[x] == after[y]
    requires Lost(before, after, prune, prune', maxCost, x, y)
    ensures Excused(before, after, y)
  {
    var l1: nat, h1: nat, l2: nat, h2: nat :|
      l1 <= x < h1 && l2 <= y < h2 && GaveUp(before, l1, h1, after, l2, h2, prune, prune', maxCost, x, y);
    StuckMeans(before, l1, h1, after, l2, h2, x, y);
  }

  lemma StuckMeans(before: seq<Token>, l1: nat, h1: nat, after: seq<Token>, l2: nat, h2: nat, x: nat, y: nat)
    requires l1 <= x < h1 <= |before| && l2 <= y < h2 <= |after| && before[x] == after[y]
    requires Stuck(before, l1, h1, after, l2, h2)
    ensures Excused(before, after, y)
  {
    var b, a := before[l1..h1], after[l2..h2];
    assert b[x - l1] == a[y - l2];
    GivesUpMeans(b, a, y - l2);
    LostInWindow(before, l1, h1, after, l2, h2, y, b, a);
  }

  lemma LostInWindow(before: seq<Token>, l1: nat, h1: nat, after: seq<Token>, l2: nat, h2: nat, y: nat,
                     b: seq<Token>, a: seq<Token>)
    requires l1 <= h1 <= |before| && l2 <= y < h2 <= |after| && b == before[l1..h1] && a == after[l2..h2]
    requires Excused(b, a, y - l2)
    ensures Excused(before, after, y)
  {
    var p: nat, i: nat :| ExcusedBy(b, i, a, p, y - l2);
    ExcusedOutside(before, l1, h1, after, l2, h2, i, p, y - l2);
  }

  lemma ExcusedOutside(before: seq<Token>, l1: nat, h1: nat, after: seq<Token>, l2: nat, h2: nat, i: nat, p: nat,
                       y: nat)
    requires l1 <= h1 <= |before| && l2 <= h2 <= |after| && ExcusedBy(before[l1..h1], i, after[l2..h2], p, y)
    ensures ExcusedBy(before, l1 + i, after, l2 + p, l2 + y)
  {
    var b, a := before[l1..h1], after[l2..h2];
    forall x | l1 + i <= x < l1 + i + (y + 1 - p)
      ensures before[x] == after[x - (l1 + i) + (l2 + p)]
    {
      assert b[x - l1] == before[x] && a[x - l1 - i + p] == after[x - (l1 + i) + (l2 + p)];
    }
    FrequentOutside(before, l1, h1, a[p]);
  }

  lemma FrequentOutside(file: seq<Token>, l: nat, h: nat, t: Token)
    requires l <= h <= |file| && Frequent(file[l..h], t)
    ensures Frequent(file, t)
  {
    FrequentExactly(file[l..h], t);
    FrequentExactly(file, t);
    assert file == file[..l] + file[l..h] + file[h..];
  }

  /**
   * Between files that are small enough for Myers without heuristics, only tokens that preprocessing prunes are lost,
   * and none if it prunes nothing that the files share.
   */
  lemma NothingLost(before: seq<Token>, after: seq<Token>, prune: nat -> bool, prune': nat -> bool, maxCost: nat,
                    x: nat, y: nat)
    requires |before| + |after| <= 2 * MS.Patience(maxCost)
    ensures Lost(before, after, prune, prune', maxCost, x, y) ==> prune(x) || prune'(y)
    ensures PrunesForeign(prune, before, 0, |before|, after, 0, |after|)
            && PrunesForeign(prune', after, 0, |after|, before, 0, |before|) ==>
              !Lost(before, after, prune, prune', maxCost, x, y)
  {}

  /** So only frequent tokens are lost if preprocessing prunes no others. */
  lemma OnlyFrequentLost(before: seq<Token>, after: seq<Token>, prune: nat -> bool, prune': nat -> bool, maxCost: nat,
                         x: nat, y: nat)
    requires x < |before| && y < |after| && before[x] == after[y] && |before| + |after| <= 2 * MS.Patience(maxCost)
    requires prune(x) || prune'(y) ==> Frequent(before, before[x])
    requires Lost(before, after, prune, prune', maxCost, x, y)
    ensures multiset(before)[before[x]] > MAX_CHAIN_LEN
  {
    NothingLost(before, after, prune, prune', maxCost, x, y);
    FrequentExactly(before, before[x]);
  }

  /** `Diff::compute_with`: every algorithm answers with a valid diff that leaves the common prefix alone. */
  method ComputeWith(algorithm: Algorithm, before: seq<Token>, after: seq<Token>,
                     prune: nat -> bool, prune': nat -> bool, maxCost: nat)
    returns (removed: array<bool>, added: array<bool>)
    requires |before| < MS.I32_MAX && |after| < MS.I32_MAX
    ensures fresh(removed) && fresh(added) && removed != added && ValidDiff(before, after, removed[..], added[..])
    ensures PrefixKept(before, removed[..], 0, |before|, after, added[..], 0, |after|)
    ensures || algorithm == ByMyersMinimal
            || (algorithm == ByMyers && Exact(false, maxCost, prune, prune', before, 0, |before|, after, 0, |after|))
            ==> |Kept(before, removed[..])| == ED.Lcs(before, 0, |before|, after, 0, |after|)
    ensures algorithm == ByMyers ==>
              NoTwins(before, removed[..], 0, |before|, after, added[..], 0, |after|,
                      Overlooked(prune, prune', !MS.Thorough(false, maxCost, |before| + |after|)))
    ensures algorithm == ByHistogram ==>
              NoTwins(before, removed[..], 0, |before|, after, added[..], 0, |after|,
                      LostIn(before, after, prune, prune', maxCost))
  {
    removed := new bool[|before|](_ => false);
    added := new bool[|after|](_ => false);
    if algorithm == ByHistogram {
      HistogramDiff(before, removed, after, added, prune, prune', maxCost);
    } else {
      MyersDiff(before, 0, |before|, removed, after, 0, |after|, added, prune, prune', algorithm == ByMyersMinimal,
                maxCost);
    }
  }
}
