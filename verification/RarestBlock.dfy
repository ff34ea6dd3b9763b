/**
 * `gix-imara-diff/src/histogram/lcs.rs`: which common block the histogram algorithm divides two files by. The
 * search is a function here; `Histogram` has the loops that compute it.
 */
module RarestBlock {
  import opened DiffMarks
  import opened Wrappers

  const MAX_CHAIN_LEN: nat := 63

  datatype Lcs = Lcs(beforeStart: nat, afterStart: nat, len: nat)

  /** Where a token occurs among the first `n` ones; not more than `MAX_CHAIN_LEN + 1` places are kept. */
  function Places(file: seq<Token>, t: Token, n: nat): (r: seq<nat>)
    requires n <= |file|
    ensures |r| <= MAX_CHAIN_LEN + 1 && forall k :: 0 <= k < |r| ==> r[k] < n && file[r[k]] == t
  {
    if n == 0 then []
    else
      var r := Places(file, t, n - 1);
      if file[n - 1] == t && |r| <= MAX_CHAIN_LEN then r + [n - 1] else r
  }

  /** How often a token occurs, counted up to `MAX_CHAIN_LEN + 1`. */
  function Count(file: seq<Token>, t: Token): nat {
    |Places(file, t, |file|)|
  }

  predicate Frequent(file: seq<Token>, t: Token) { Count(file, t) > MAX_CHAIN_LEN }

  lemma {:induction false} PlacesCount(file: seq<Token>, t: Token, n: nat)
    requires n <= |file|
    ensures var c := multiset(file[..n])[t];
            |Places(file, t, n)| == if c <= MAX_CHAIN_LEN then c else MAX_CHAIN_LEN + 1
  {
    if n > 0 {
      PlacesCount(file, t, n - 1);
      assert file[..n] == file[..n - 1] + [file[n - 1]];
    }
  }

  /** Frequent tokens are those that occur more than `MAX_CHAIN_LEN` times. */
  lemma FrequentExactly(file: seq<Token>, t: Token)
    ensures Frequent(file, t) <==> multiset(file)[t] > MAX_CHAIN_LEN
    ensures Count(file, t) > 0 <==> t in file
  {
    PlacesCount(file, t, |file|);
    assert file[..|file|] == file;
  }

  /** Where each token of a file occurs. */
  type Occurrences = map<Token, seq<nat>>

  function PlacesOf(h: Occurrences, t: Token): seq<nat> {
    if t in h then h[t] else []
  }

  function Num(h: Occurrences, t: Token): nat {
    |PlacesOf(h, t)|
  }

  predicate Occurs(file: seq<Token>, t: Token, places: seq<nat>) {
    forall k :: 0 <= k < |places| ==> places[k] < |file| && file[places[k]] == t
  }

  ghost predicate Indexes(h: Occurrences, file: seq<Token>) {
    forall t :: Occurs(file, t, PlacesOf(h, t)) && Num(h, t) <= MAX_CHAIN_LEN + 1
  }

  ghost predicate Complete(h: Occurrences, file: seq<Token>) {
    forall t :: t in file ==> Num(h, t) > 0
  }

  // -------------------------------------------------------------------------------------------------
  // The search.
  // -------------------------------------------------------------------------------------------------

  /** The number of equal tokens in front of two places. */
  function Back(before: seq<Token>, i: nat, after: seq<Token>, pos: nat): (n: nat)
    requires i <= |before| && pos <= |after|
    ensures n <= i && n <= pos
  {
    if i > 0 && pos > 0 && before[i - 1] == after[pos - 1] then 1 + Back(before, i - 1, after, pos - 1) else 0
  }

  /** The number of equal tokens from two places on. */
  function Ahead(before: seq<Token>, i: nat, after: seq<Token>, pos: nat): (n: nat)
    requires i <= |before| && pos <= |after|
    ensures i + n <= |before| && pos + n <= |after|
    decreases |before| - i
  {
    if i < |before| && pos < |after| && before[i] == after[pos] then 1 + Ahead(before, i + 1, after, pos + 1) else 0
  }

  /** The block around two equal tokens. */
  function BlockAt(before: seq<Token>, i: nat, after: seq<Token>, pos: nat): (b: Lcs)
    requires i < |before| && pos < |after| && before[i] == after[pos]
    ensures b.len > 0 && b.beforeStart + b.len <= |before|
  {
    var n := Back(before, i, after, pos);
    Lcs(i - n, pos - n, n + Ahead(before, i, after, pos))
  }

  /** A block that both files have in common and that goes on at neither end. */
  predicate IsBlock(before: seq<Token>, after: seq<Token>, b: Lcs) {
    && SameTokens(before, b.beforeStart, after, b.afterStart, b.len)
    && (b.beforeStart > 0 && b.afterStart > 0 ==> before[b.beforeStart - 1] != after[b.afterStart - 1])
    && (b.beforeStart + b.len < |before| && b.afterStart + b.len < |after| ==>
          before[b.beforeStart + b.len] != after[b.afterStart + b.len])
  }

  /** How often the rarest of the tokens `s..e` occurs. */
  function Rarest(h: Occurrences, file: seq<Token>, s: nat, e: nat): (n: nat)
    requires s < e <= |file|
    decreases e - s
  {
    var n := Num(h, file[e - 1]);
    if s + 1 == e then n
    else
      var r := Rarest(h, file, s, e - 1);
      if n < r then n else r
  }

  lemma {:induction false} RarestIs(h: Occurrences, file: seq<Token>, s: nat, e: nat, x: nat) returns (y: nat)
    requires s <= x < e <= |file|
    ensures Rarest(h, file, s, e) <= Num(h, file[x])
    ensures s <= y < e && Rarest(h, file, s, e) == Num(h, file[y])
    decreases e - s
  {
    y := e - 1;
    if s + 1 < e {
      y := RarestIs(h, file, s, e - 1, if x == e - 1 then s else x);
      if Num(h, file[e - 1]) < Rarest(h, file, s, e - 1) { y := e - 1; }
    }
  }

  function RarestOf(h: Occurrences, before: seq<Token>, b: Lcs): nat
    requires 0 < b.len && b.beforeStart + b.len <= |before|
  {
    Rarest(h, before, b.beforeStart, b.beforeStart + b.len)
  }

  /** The best block so far, and how often its rarest token occurs. */
  datatype Best = Best(lcs: Lcs, min: nat)

  const NOTHING: Best := Best(Lcs(0, 0, 0), MAX_CHAIN_LEN + 1)

  function Better(best: Best, b: Lcs, rarest: nat): Best {
    if best.lcs.len < b.len || best.min > rarest then Best(b, rarest) else best
  }

  /** The first place from `k` on that is behind `end`. */
  function SkipTo(places: seq<nat>, k: nat, end: nat): (r: nat)
    ensures k <= r
    decreases |places| - k
  {
    if k < |places| && places[k] <= end then SkipTo(places, k + 1, end) else k
  }

  /** All blocks around `after[pos]` are tried; `next` is where the search goes on. */
  function Tried(h: Occurrences, before: seq<Token>, after: seq<Token>, pos: nat, places: seq<nat>, k: nat, best: Best,
                 next: nat)
    : (r: (Best, nat))
    requires pos < |after| && Occurs(before, after[pos], places)
    ensures r.1 >= next
    decreases |places| - k
  {
    if k >= |places| then (best, next)
    else
      var b := BlockAt(before, places[k], after, pos);
      var end := b.afterStart + b.len;
      Tried(h, before, after, pos, places, SkipTo(places, k + 1, end), Better(best, b, RarestOf(h, before, b)),
            if next < end then end else next)
  }

  function Searched(h: Occurrences, before: seq<Token>, after: seq<Token>, pos: nat, best: Best, found: bool)
    : (Best, bool)
    requires Indexes(h, before)
    decreases |after| - pos
  {
    if pos >= |after| then (best, found)
    else
      var places := PlacesOf(h, after[pos]);
      if |places| == 0 then Searched(h, before, after, pos + 1, best, found)
      else if |places| > best.min then Searched(h, before, after, pos + 1, best, true)
      else
        var r := Tried(h, before, after, pos, places, 0, best, pos + 1);
        Searched(h, before, after, r.1, r.0, true)
  }

  lemma SearchedEnd(h: Occurrences, before: seq<Token>, after: seq<Token>, pos: nat, best: Best, found: bool)
    requires Indexes(h, before) && pos >= |after|
    ensures Searched(h, before, after, pos, best, found) == (best, found)
  {}

  /** A token that is not shared, or more frequent than the best block. */
  lemma SearchedPast(h: Occurrences, before: seq<Token>, after: seq<Token>, pos: nat, best: Best, found: bool)
    requires Indexes(h, before) && pos < |after| && (Num(h, after[pos]) == 0 || Num(h, after[pos]) > best.min)
    ensures Searched(h, before, after, pos, best, found)
            == Searched(h, before, after, pos + 1, best, found || Num(h, after[pos]) > 0)
  {}

  lemma SearchedTry(h: Occurrences, before: seq<Token>, after: seq<Token>, pos: nat, best: Best, found: bool)
    requires Indexes(h, before) && pos < |after| && 0 < Num(h, after[pos]) <= best.min
    ensures Occurs(before, after[pos], PlacesOf(h, after[pos]))
    ensures var r := Tried(h, before, after, pos, PlacesOf(h, after[pos]), 0, best, pos + 1);
            r.1 > pos && Searched(h, before, after, pos, best, found) == Searched(h, before, after, r.1, r.0, true)
  {}

  /** `find_lcs`: a block, an empty one if there is none, or nothing if all tokens of the best one are frequent. */
  function FindBlock(h: Occurrences, before: seq<Token>, after: seq<Token>): Option<Lcs>
    requires Indexes(h, before)
  {
    var r := Searched(h, before, after, 0, NOTHING, false);
    if !r.1 || r.0.min <= MAX_CHAIN_LEN then Some(r.0.lcs) else None
  }

  // -------------------------------------------------------------------------------------------------
  // What it finds.
  // -------------------------------------------------------------------------------------------------

  predicate Holds(h: Occurrences, before: seq<Token>, after: seq<Token>, best: Best) {
    && best.lcs.len > 0 && IsBlock(before, after, best.lcs) && best.min == RarestOf(h, before, best.lcs)
  }

  lemma {:induction false} BackIs(before: seq<Token>, i: nat, after: seq<Token>, pos: nat)
    requires i <= |before| && pos <= |after|
    ensures var n := Back(before, i, after, pos);
            && SameTokens(before, i - n, after, pos - n, n)
            && (n < i && n < pos ==> before[i - n - 1] != after[pos - n - 1])
  {
    if i > 0 && pos > 0 && before[i - 1] == after[pos - 1] { BackIs(before, i - 1, after, pos - 1); }
  }

  lemma {:induction false} AheadIs(before: seq<Token>, i: nat, after: seq<Token>, pos: nat)
    requires i <= |before| && pos <= |after|
    ensures var n := Ahead(before, i, after, pos);
            && SameTokens(before, i, after, pos, n)
            && (i + n < |before| && pos + n < |after| ==> before[i + n] != after[pos + n])
    decreases |before| - i
  {
    if i < |before| && pos < |after| && before[i] == after[pos] { AheadIs(before, i + 1, after, pos + 1); }
  }

  lemma BlockAtIsBlock(before: seq<Token>, i: nat, after: seq<Token>, pos: nat)
    requires i < |before| && pos < |after| && before[i] == after[pos]
    ensures var b := BlockAt(before, i, after, pos);
            && IsBlock(before, after, b)
            && b.beforeStart <= i < b.beforeStart + b.len
            && Stretch(before, i, after, pos, b.afterStart + b.len)
  {
    var n, m := Back(before, i, after, pos), Ahead(before, i, after, pos);
    BackIs(before, i, after, pos);
    AheadIs(before, i, after, pos);
    SameJoin(before, i - n, after, pos - n, n, m);
  }

  lemma SameJoin(a: seq<Token>, i: nat, b: seq<Token>, j: nat, n: nat, m: nat)
    requires SameTokens(a, i, b, j, n) && SameTokens(a, i + n, b, j + n, m)
    ensures SameTokens(a, i, b, j, n + m)
  {}

  /** `after[pos..next]` stands in the other file as well, from a place where `after[pos]` occurs. */
  ghost predicate Reaches(before: seq<Token>, after: seq<Token>, pos: nat, next: nat) {
    exists i: nat :: Stretch(before, i, after, pos, next)
  }

  predicate Stretch(before: seq<Token>, i: nat, after: seq<Token>, pos: nat, next: nat) {
    pos < next <= |after| && SameTokens(before, i, after, pos, next - pos)
  }

  lemma BetterHolds(h: Occurrences, before: seq<Token>, after: seq<Token>, best: Best, b: Lcs, n: nat)
    requires best.lcs.len > 0 ==> Holds(h, before, after, best)
    requires b.len > 0 && IsBlock(before, after, b) && n == RarestOf(h, before, b)
    ensures Holds(h, before, after, Better(best, b, n)) && Better(best, b, n).min <= n
  {}

  /** The best block so far is at most as frequent as `after[pos]`, and the search goes on behind a common stretch. */
  ghost predicate TriedAll(h: Occurrences, before: seq<Token>, after: seq<Token>, pos: nat, r: (Best, nat))
    requires pos < |after|
  {
    && Holds(h, before, after, r.0) && r.0.min <= Num(h, after[pos]) && Reaches(before, after, pos, r.1)
  }

  lemma {:induction false} TriedMeans(h: Occurrences, before: seq<Token>, after: seq<Token>, pos: nat,
                                      places: seq<nat>, k: nat, best: Best, next: nat)
    requires pos < |after| && Occurs(before, after[pos], places) && k < |places|
    requires best.lcs.len > 0 ==> Holds(h, before, after, best)
    requires Reaches(before, after, pos, next)
    ensures TriedAll(h, before, after, pos, Tried(h, before, after, pos, places, k, best, next))
    decreases |places| - k
  {
    var b, best', next' := TriedOne(h, before, after, pos, places[k], best, next);
    var k' := SkipTo(places, k + 1, b.afterStart + b.len);
    TriedStep(h, before, after, pos, places, k, best, next, b, best', next');
    if k' < |places| {
      TriedMeans(h, before, after, pos, places, k', best', next');
    } else {
      TriedEnd(h, before, after, pos, places, k', best', next');
    }
  }

  lemma TriedStep(h: Occurrences, before: seq<Token>, after: seq<Token>, pos: nat, places: seq<nat>, k: nat,
                  best: Best, next: nat, b: Lcs, best': Best, next': nat)
    requires pos < |after| && Occurs(before, after[pos], places) && k < |places|
    requires b == BlockAt(before, places[k], after, pos) && best' == Better(best, b, RarestOf(h, before, b))
    requires next' == if next < b.afterStart + b.len then b.afterStart + b.len else next
    ensures Tried(h, before, after, pos, places, k, best, next)
            == Tried(h, before, after, pos, places, SkipTo(places, k + 1, b.afterStart + b.len), best', next')
  {}

  lemma TriedEnd(h: Occurrences, before: seq<Token>, after: seq<Token>, pos: nat, places: seq<nat>, k: nat, best: Best,
                 next: nat)
    requires pos < |after| && Occurs(before, after[pos], places) && k >= |places|
    ensures Tried(h, before, after, pos, places, k, best, next) == (best, next)
  {}

  lemma TriedOne(h: Occurrences, before: seq<Token>, after: seq<Token>, pos: nat, i: nat, best: Best, next: nat)
    returns (b: Lcs, best': Best, next': nat)
    requires pos < |after| && i < |before| && before[i] == after[pos]
    requires best.lcs.len > 0 ==> Holds(h, before, after, best)
    requires Reaches(before, after, pos, next)
    ensures b == BlockAt(before, i, after, pos) && b.len > 0 && b.beforeStart + b.len <= |before|
    ensures best' == Better(best, b, RarestOf(h, before, b))
    ensures next' == if next < b.afterStart + b.len then b.afterStart + b.len else next
    ensures TriedAll(h, before, after, pos, (best', next'))
  {
    b := BlockAt(before, i, after, pos);
    BlockAtIsBlock(before, i, after, pos);
    BlockIsRare(h, before, i, b);
    best' := Better(best, b, RarestOf(h, before, b));
    next' := if next < b.afterStart + b.len then b.afterStart + b.len else next;
    TryBlock(h, before, after, pos, i, b, best, next);
  }

  lemma BlockIsRare(h: Occurrences, before: seq<Token>, i: nat, b: Lcs)
    requires b.beforeStart <= i < b.beforeStart + b.len <= |before|
    ensures RarestOf(h, before, b) <= Num(h, before[i])
  {
    var _ := RarestIs(h, before, b.beforeStart, b.beforeStart + b.len, i);
  }

  lemma TryBlock(h: Occurrences, before: seq<Token>, after: seq<Token>, pos: nat, i: nat, b: Lcs, best: Best,
                 next: nat)
    requires pos < |after| && b.len > 0 && IsBlock(before, after, b) && RarestOf(h, before, b) <= Num(h, after[pos])
    requires Stretch(before, i, after, pos, b.afterStart + b.len) && Reaches(before, after, pos, next)
    requires best.lcs.len > 0 ==> Holds(h, before, after, best)
    ensures var end := b.afterStart + b.len;
            TriedAll(h, before, after, pos, (Better(best, b, RarestOf(h, before, b)), if next < end then end else next))
  {
    BetterHolds(h, before, after, best, b, RarestOf(h, before, b));
  }

  predicate Shared(before: seq<Token>, after: seq<Token>, y: nat)
    requires y < |after|
  {
    after[y] in before
  }

  /** A token that occurs `min` times or more often stands at `p`, and what follows up to `y` is in the other file. */
  predicate LeadsTo(h: Occurrences, before: seq<Token>, after: seq<Token>, p: nat, y: nat, i: nat, min: nat) {
    p <= y < |after| && min <= Num(h, after[p]) && SameTokens(before, i, after, p, y - p + 1)
  }

  /** A shared token occurs `min` times or more often, or follows one that does in a common block. */
  ghost predicate Follows(h: Occurrences, before: seq<Token>, after: seq<Token>, y: nat, min: nat) {
    exists p: nat, i: nat :: LeadsTo(h, before, after, p, y, i, min)
  }

  /** All shared tokens among the first `pos` ones do so. */
  ghost predicate AllFollow(h: Occurrences, before: seq<Token>, after: seq<Token>, pos: nat, min: nat) {
    pos <= |after| && forall y :: 0 <= y < pos && Shared(before, after, y) ==> Follows(h, before, after, y, min)
  }

  lemma AllFollowBelow(h: Occurrences, before: seq<Token>, after: seq<Token>, pos: nat, min: nat, min': nat)
    requires AllFollow(h, before, after, pos, min) && min' <= min
    ensures AllFollow(h, before, after, pos, min')
  {
    forall y | 0 <= y < pos && Shared(before, after, y)
      ensures Follows(h, before, after, y, min')
    {
      var p: nat, i: nat :| LeadsTo(h, before, after, p, y, i, min);
      assert LeadsTo(h, before, after, p, y, i, min');
    }
  }

  lemma AllFollowNext(h: Occurrences, before: seq<Token>, after: seq<Token>, pos: nat, next: nat, min: nat)
    requires AllFollow(h, before, after, pos, min) && pos < |after| && Reaches(before, after, pos, next)
    requires min <= Num(h, after[pos])
    ensures AllFollow(h, before, after, next, min)
  {
    var i: nat :| Stretch(before, i, after, pos, next);
    forall y | pos <= y < next
      ensures Follows(h, before, after, y, min)
    {
      assert LeadsTo(h, before, after, pos, y, i, min);
    }
  }

  /** What the search knows at `pos`. */
  ghost predicate Knows(h: Occurrences, before: seq<Token>, after: seq<Token>, pos: nat, best: Best, found: bool) {
    && pos <= |after| && (found <==> exists y :: 0 <= y < pos && Shared(before, after, y))
    && (if found then Holds(h, before, after, best) && AllFollow(h, before, after, pos, best.min) else best == NOTHING)
  }

  lemma KnowsForeign(h: Occurrences, before: seq<Token>, after: seq<Token>, pos: nat, best: Best, found: bool)
    requires Knows(h, before, after, pos, best, found) && pos < |after| && !Shared(before, after, pos)
    ensures Knows(h, before, after, pos + 1, best, found)
  {
    if found {
      var y :| 0 <= y < pos && Shared(before, after, y);
      AllFollowForeign(h, before, after, pos, best.min);
    }
  }

  lemma AllFollowForeign(h: Occurrences, before: seq<Token>, after: seq<Token>, pos: nat, min: nat)
    requires AllFollow(h, before, after, pos, min) && pos < |after| && !Shared(before, after, pos)
    ensures AllFollow(h, before, after, pos + 1, min)
  {}

  lemma KnowsMore(h: Occurrences, before: seq<Token>, after: seq<Token>, pos: nat, next: nat, best: Best, found: bool,
                  best': Best)
    requires Knows(h, before, after, pos, best, found) && pos < |after| && Shared(before, after, pos)
    requires Holds(h, before, after, best') && best'.min <= best.min && best'.min <= Num(h, after[pos])
    requires Reaches(before, after, pos, next)
    ensures Knows(h, before, after, next, best', true)
  {
    if found { AllFollowBelow(h, before, after, pos, best.min, best'.min); }
    AllFollowNext(h, before, after, pos, next, best'.min);
  }

  lemma {:induction false} SearchedMeans(h: Occurrences, before: seq<Token>, after: seq<Token>, pos: nat, best: Best,
                                         found: bool)
    requires Indexes(h, before) && Complete(h, before) && Knows(h, before, after, pos, best, found)
    ensures KnowsAll(h, before, after, Searched(h, before, after, pos, best, found))
    decreases |after| - pos
  {
    if pos < |after| {
      var next, best', found' := SearchStep(h, before, after, pos, best, found);
      SearchedMeans(h, before, after, next, best', found');
    }
  }

  ghost predicate KnowsAll(h: Occurrences, before: seq<Token>, after: seq<Token>, r: (Best, bool)) {
    Knows(h, before, after, |after|, r.0, r.1)
  }

  /** One step of the search. */
  lemma SearchStep(h: Occurrences, before: seq<Token>, after: seq<Token>, pos: nat, best: Best, found: bool)
    returns (next: nat, best': Best, found': bool)
    requires Indexes(h, before) && Complete(h, before) && Knows(h, before, after, pos, best, found) && pos < |after|
    ensures pos < next && Knows(h, before, after, next, best', found')
    ensures Searched(h, before, after, pos, best, found) == Searched(h, before, after, next, best', found')
  {
    next, best', found' := pos + 1, best, true;
    var places := PlacesOf(h, after[pos]);
    assert Occurs(before, after[pos], places) && Num(h, after[pos]) == |places| <= MAX_CHAIN_LEN + 1;
    if |places| == 0 {
      found' := found;
      KnowsForeign(h, before, after, pos, best, found);
    } else {
      StretchOne(before, places[0], after, pos);
      if |places| > best.min {
        KnowsMore(h, before, after, pos, next, best, found, best);
      } else {
        TriedMeans(h, before, after, pos, places, 0, best, pos + 1);
        var r := Tried(h, before, after, pos, places, 0, best, pos + 1);
        next, best' := r.1, r.0;
        KnowsMore(h, before, after, pos, next, best, found, best');
      }
    }
  }

  lemma StretchOne(before: seq<Token>, i: nat, after: seq<Token>, pos: nat)
    requires i < |before| && pos < |after| && before[i] == after[pos]
    ensures Reaches(before, after, pos, pos + 1) && Shared(before, after, pos)
  {
    assert Stretch(before, i, after, pos, pos + 1);
  }

  /** The block, or the empty one exactly if there is no shared token. */
  ghost predicate Finds(h: Occurrences, before: seq<Token>, after: seq<Token>, b: Lcs) {
    if b.len == 0 then forall y :: 0 <= y < |after| ==> !Shared(before, after, y)
    else
      && IsBlock(before, after, b) && RarestOf(h, before, b) <= MAX_CHAIN_LEN
      && AllFollow(h, before, after, |after|, RarestOf(h, before, b))
  }

  lemma SearchFinds(h: Occurrences, before: seq<Token>, after: seq<Token>, b: Lcs)
    requires Indexes(h, before) && Complete(h, before) && FindBlock(h, before, after) == Some(b)
    ensures Finds(h, before, after, b)
  {
    SearchedMeans(h, before, after, 0, NOTHING, false);
  }

  lemma SearchGivesUp(h: Occurrences, before: seq<Token>, after: seq<Token>)
    requires Indexes(h, before) && Complete(h, before) && FindBlock(h, before, after).None?
    ensures exists y :: 0 <= y < |after| && Shared(before, after, y)
    ensures AllFollow(h, before, after, |after|, MAX_CHAIN_LEN + 1)
  {
    SearchedMeans(h, before, after, 0, NOTHING, false);
    var best := Searched(h, before, after, 0, NOTHING, false).0;
    AllFollowBelow(h, before, after, |after|, best.min, MAX_CHAIN_LEN + 1);
  }

  lemma FoundIsShared(h: Occurrences, before: seq<Token>, after: seq<Token>, b: Lcs) returns (y: nat)
    requires b.len > 0 && IsBlock(before, after, b) && RarestOf(h, before, b) <= MAX_CHAIN_LEN
    ensures y < |after| && Shared(before, after, y) && Num(h, after[y]) <= MAX_CHAIN_LEN
  {
    var x := RarestIs(h, before, b.beforeStart, b.beforeStart + b.len, b.beforeStart);
    y := x - b.beforeStart + b.afterStart;
    assert before[x] == after[y];
  }

  // -------------------------------------------------------------------------------------------------
  // With the histogram of a file.
  // -------------------------------------------------------------------------------------------------

  /** The occurrences of all tokens of a file, as `populate` records them. */
  ghost function HistogramOf(file: seq<Token>): Occurrences {
    RecordsOf(file, |file|)
  }

  ghost function RecordsOf(file: seq<Token>, n: nat): Occurrences
    requires n <= |file|
  {
    map t | t in file[..n] :: Places(file, t, n)
  }

  lemma RecordsNext(file: seq<Token>, n: nat, h: Occurrences)
    requires n < |file| && h == RecordsOf(file, n)
    ensures var t := file[n];
            RecordsOf(file, n + 1)
            == if t !in h then h[t := [n]] else if |h[t]| <= MAX_CHAIN_LEN then h[t := h[t] + [n]] else h
  {
    var t, r := file[n], RecordsOf(file, n + 1);
    assert file[..n + 1] == file[..n] + [t];
    assert r.Keys == h.Keys + {t};
    if t !in h {
      NoPlaces(file, t, n);
      assert r[t] == [n];
    }
  }

  lemma {:induction false} NoPlaces(file: seq<Token>, t: Token, n: nat)
    requires n <= |file| && t !in file[..n]
    ensures Places(file, t, n) == []
  {
    if n > 0 {
      assert file[..n] == file[..n - 1] + [file[n - 1]];
      NoPlaces(file, t, n - 1);
    }
  }

  lemma HistogramCounts(file: seq<Token>, t: Token)
    ensures Num(HistogramOf(file), t) == Count(file, t) <= MAX_CHAIN_LEN + 1
    ensures t in file ==> Num(HistogramOf(file), t) > 0
    ensures Occurs(file, t, PlacesOf(HistogramOf(file), t))
  {
    FrequentExactly(file, t);
    assert file[..|file|] == file;
  }

  lemma HistogramIndexes(file: seq<Token>)
    ensures Indexes(HistogramOf(file), file) && Complete(HistogramOf(file), file)
  {
    forall t
      ensures Occurs(file, t, PlacesOf(HistogramOf(file), t)) && Num(HistogramOf(file), t) <= MAX_CHAIN_LEN + 1
      ensures t in file ==> Num(HistogramOf(file), t) > 0
    {
      HistogramCounts(file, t);
    }
  }

  ghost function BlockOf(before: seq<Token>, after: seq<Token>): Option<Lcs> {
    HistogramIndexes(before);
    FindBlock(HistogramOf(before), before, after)
  }

  /** A token occurs often, or follows one that does in a stretch that the other file has as well. */
  ghost predicate Excused(before: seq<Token>, after: seq<Token>, y: nat) {
    exists p: nat, i: nat :: ExcusedBy(before, i, after, p, y)
  }

  predicate ExcusedBy(before: seq<Token>, i: nat, after: seq<Token>, p: nat, y: nat) {
    p <= y < |after| && Frequent(before, after[p]) && SameTokens(before, i, after, p, y + 1 - p)
  }

  /**
   * The block cannot be extended, has a token that occurs at most `MAX_CHAIN_LEN` times, and every shared token occurs
   * at least as often as its rarest one or follows one that does. It is empty exactly if the files share no token.
   */
  lemma BlockMeans(before: seq<Token>, after: seq<Token>, b: Lcs)
    requires BlockOf(before, after) == Some(b)
    ensures Finds(HistogramOf(before), before, after, b)
  {
    HistogramIndexes(before);
    SearchFinds(HistogramOf(before), before, after, b);
  }

  lemma BlockIsCommon(before: seq<Token>, after: seq<Token>, b: Lcs)
    requires BlockOf(before, after) == Some(b)
    ensures if b.len > 0 then IsBlock(before, after, b) else forall y :: 0 <= y < |after| ==> after[y] !in before
  {
    BlockMeans(before, after, b);
    if b.len == 0 {
      forall y | 0 <= y < |after|
        ensures after[y] !in before
      {
        assert !Shared(before, after, y);
      }
    }
  }

  /** Where the search gives up, every shared token is frequent or follows a frequent one. */
  lemma GivesUpMeans(before: seq<Token>, after: seq<Token>, y: nat)
    requires BlockOf(before, after).None? && y < |after| && after[y] in before
    ensures Excused(before, after, y)
  {
    var h := HistogramOf(before);
    HistogramIndexes(before);
    SearchGivesUp(h, before, after);
    assert Shared(before, after, y);
    var p: nat, i: nat :| LeadsTo(h, before, after, p, y, i, MAX_CHAIN_LEN + 1);
    HistogramCounts(before, after[p]);
    assert ExcusedBy(before, i, after, p, y);
  }

  /** No rare token follows a frequent one in both files. */
  predicate Unmixed(before: seq<Token>, after: seq<Token>) {
    forall i, y :: 0 <= i < |before| - 1 && 0 <= y < |after| - 1 ==>
      before[i] == after[y] && before[i + 1] == after[y + 1] && Frequent(before, after[y]) ==>
        Frequent(before, after[y + 1])
  }

  lemma {:induction false} UnmixedExcuse(before: seq<Token>, i: nat, after: seq<Token>, p: nat, y: nat)
    requires Unmixed(before, after) && ExcusedBy(before, i, after, p, y)
    ensures Frequent(before, after[y])
    decreases y
  {
    if p < y {
      UnmixedExcuse(before, i, after, p, y - 1);
      var x := i + (y - p);
      assert before[x - 1] == after[y - 1] && before[x] == after[y];
      assert before[(x - 1) + 1] == after[(y - 1) + 1];
    }
  }

  /** Then the search gives up exactly if the files share tokens, and only frequent ones. */
  lemma GivesUpExactly(before: seq<Token>, after: seq<Token>)
    requires Unmixed(before, after)
    ensures BlockOf(before, after).None? <==>
              && (exists y :: 0 <= y < |after| && after[y] in before)
              && (forall y :: 0 <= y < |after| && after[y] in before ==> Frequent(before, after[y]))
  {
    if BlockOf(before, after).None? {
      SomeShared(before, after);
      forall y | 0 <= y < |after| && after[y] in before
        ensures Frequent(before, after[y])
      {
        GivesUpMeans(before, after, y);
        var p: nat, i: nat :| ExcusedBy(before, i, after, p, y);
        UnmixedExcuse(before, i, after, p, y);
      }
    } else if z :| 0 <= z < |after| && after[z] in before {
      if forall y :: 0 <= y < |after| && after[y] in before ==> Frequent(before, after[y]) {
        FrequentGivesUp(before, after, z);
      }
    }
  }

  lemma SomeShared(before: seq<Token>, after: seq<Token>)
    requires BlockOf(before, after).None?
    ensures exists y :: 0 <= y < |after| && after[y] in before
  {
    HistogramIndexes(before);
    SearchGivesUp(HistogramOf(before), before, after);
    var y :| 0 <= y < |after| && Shared(before, after, y);
    assert after[y] in before;
  }

  /** If all that the files share is frequent, the search gives up. */
  lemma FrequentGivesUp(before: seq<Token>, after: seq<Token>, z: nat)
    requires z < |after| && after[z] in before
    requires forall y :: 0 <= y < |after| && after[y] in before ==> Frequent(before, after[y])
    ensures BlockOf(before, after).None?
  {
    if BlockOf(before, after).Some? {
      var b := BlockOf(before, after).value;
      BlockMeans(before, after, b);
      assert Shared(before, after, z);
      var y := FoundIsShared(HistogramOf(before), before, after, b);
      HistogramCounts(before, after[y]);
    }
  }

  // -------------------------------------------------------------------------------------------------
  // Not all that is shared is frequent where the search gives up. In the file below, `C` (0) stands alone 64 times
  // and `A` (1) once in front of `R` (2), 62 times alone and once in `C C A`, which is too late for the places of `C`.
  // For `C C A R`, the block `A R` gives way to `C C A`, which is longer and has frequent tokens only.
  // -------------------------------------------------------------------------------------------------

  function RepetitiveAt(k: nat): Token {
    if k == 133 then 2
    else if 4 <= k <= 130 && k % 2 == 0 then 0
    else if 132 <= k <= 256 && k % 2 == 0 then 1
    else if k == 258 || k == 259 then 0
    else if k == 260 then 1
    else 3
  }

  const REPETITIVE: seq<Token> := seq(261, k requires 0 <= k < 261 => RepetitiveAt(k))
  const RARE_LINE: seq<Token> := [0, 0, 1, 2]

  predicate IsRareLine(s: seq<Token>) {
    |s| == 4 && s[0] == 0 && s[1] == 0 && s[2] == 1 && s[3] == 2
  }

  predicate IsRepetitive(file: seq<Token>) {
    |file| == 261 && forall k :: 0 <= k < 261 ==> file[k] == RepetitiveAt(k)
  }

  lemma {:induction false} PlacesOfC(file: seq<Token>, n: nat)
    requires IsRepetitive(file) && n <= 261
    ensures Places(file, 0, n) == seq(if n < 4 then 0 else if n < 132 then (n - 3) / 2 else 64, j => 4 + 2 * j)
  {
    if n > 0 { PlacesOfC(file, n - 1); }
  }

  lemma {:induction false} PlacesOfA(file: seq<Token>, n: nat)
    requires IsRepetitive(file) && n <= 260
    ensures Places(file, 1, n) == seq(if n < 132 then 0 else if n < 258 then (n - 131) / 2 else 63, j => 132 + 2 * j)
  {
    if n > 0 { PlacesOfA(file, n - 1); }
  }

  lemma {:induction false} PlacesOfR(file: seq<Token>, n: nat)
    requires IsRepetitive(file) && n <= 261
    ensures Places(file, 2, n) == if n < 134 then [] else [133]
  {
    if n > 0 { PlacesOfR(file, n - 1); }
  }

  /** The occurrences of the three tokens. */
  predicate Repeats(h: Occurrences, c: seq<nat>, a: seq<nat>) {
    && PlacesOf(h, 0) == c && |c| == 64 && (forall k :: 0 <= k < 64 ==> c[k] == 4 + 2 * k)
    && PlacesOf(h, 1) == a && |a| == 64 && (forall k :: 0 <= k < 63 ==> a[k] == 132 + 2 * k) && a[63] == 260
    && Num(h, 2) == 1
  }

  /** A token that is equal, between others that are not. */
  predicate Lonely(before: seq<Token>, i: nat, after: seq<Token>, pos: nat) {
    && i < |before| && pos < |after| && before[i] == after[pos]
    && (i > 0 && pos > 0 ==> before[i - 1] != after[pos - 1])
    && (i + 1 < |before| && pos + 1 < |after| ==> before[i + 1] != after[pos + 1])
  }

  predicate AllLonely(before: seq<Token>, places: seq<nat>, k: nat, m: nat, after: seq<Token>, pos: nat) {
    m <= |places| && forall j :: k <= j < m ==> Lonely(before, places[j], after, pos)
  }

  predicate Behind(places: seq<nat>, k: nat, end: nat) {
    forall j :: k <= j < |places| ==> places[j] > end
  }

  lemma {:induction false} BackUnique(before: seq<Token>, i: nat, after: seq<Token>, pos: nat, n: nat)
    requires n <= i <= |before| && n <= pos <= |after| && SameTokens(before, i - n, after, pos - n, n)
    requires n < i && n < pos ==> before[i - n - 1] != after[pos - n - 1]
    ensures Back(before, i, after, pos) == n
  {
    if n > 0 {
      assert before[i - 1] == after[pos - 1];
      BackUnique(before, i - 1, after, pos - 1, n - 1);
    }
  }

  lemma {:induction false} AheadUnique(before: seq<Token>, i: nat, after: seq<Token>, pos: nat, n: nat)
    requires SameTokens(before, i, after, pos, n)
    requires i + n < |before| && pos + n < |after| ==> before[i + n] != after[pos + n]
    ensures Ahead(before, i, after, pos) == n
    decreases n
  {
    if n > 0 {
      assert before[i] == after[pos];
      AheadUnique(before, i + 1, after, pos + 1, n - 1);
    }
  }

  /** There is only one block around two places. */
  lemma BlockUnique(before: seq<Token>, i: nat, after: seq<Token>, pos: nat, b: Lcs)
    requires IsBlock(before, after, b) && b.beforeStart <= i < b.beforeStart + b.len
    requires i - b.beforeStart == pos - b.afterStart && i < |before| && pos < |after| && before[i] == after[pos]
    ensures BlockAt(before, i, after, pos) == b
  {
    var n := i - b.beforeStart;
    BackUnique(before, i, after, pos, n);
    AheadUnique(before, i, after, pos, b.len - n);
  }

  lemma LonelyBlock(h: Occurrences, before: seq<Token>, i: nat, after: seq<Token>, pos: nat)
    requires Lonely(before, i, after, pos)
    ensures BlockAt(before, i, after, pos) == Lcs(i, pos, 1)
    ensures RarestOf(h, before, Lcs(i, pos, 1)) == Num(h, after[pos])
  {
    BlockUnique(before, i, after, pos, Lcs(i, pos, 1));
  }

  /** Blocks of one frequent token change nothing. */
  lemma {:induction false} LonelyTried(h: Occurrences, before: seq<Token>, after: seq<Token>, pos: nat,
                                       places: seq<nat>, k: nat, m: nat, best: Best, next: nat)
    requires pos < |after| && Occurs(before, after[pos], places) && k <= m <= |places|
    requires AllLonely(before, places, k, m, after, pos) && Behind(places, k, pos + 1)
    requires best.lcs.len > 0 && best.min <= Num(h, after[pos]) && next > pos
    ensures Tried(h, before, after, pos, places, k, best, next) == Tried(h, before, after, pos, places, m, best, next)
    decreases m - k
  {
    if k < m {
      LonelyStep(h, before, after, pos, places, k, best, next);
      LonelyTried(h, before, after, pos, places, k + 1, m, best, next);
    }
  }

  lemma LonelyStep(h: Occurrences, before: seq<Token>, after: seq<Token>, pos: nat, places: seq<nat>, k: nat,
                   best: Best, next: nat)
    requires pos < |after| && Occurs(before, after[pos], places) && k < |places|
    requires Lonely(before, places[k], after, pos) && (k + 1 < |places| ==> places[k + 1] > pos + 1)
    requires best.lcs.len > 0 && best.min <= Num(h, after[pos]) && next > pos
    ensures Tried(h, before, after, pos, places, k, best, next)
            == Tried(h, before, after, pos, places, k + 1, best, next)
  {
    LonelyBlock(h, before, places[k], after, pos);
    TriedStep(h, before, after, pos, places, k, best, next, Lcs(places[k], pos, 1), best, next);
  }

  lemma AllLonelyC(before: seq<Token>, after: seq<Token>, c: seq<nat>, pos: nat)
    requires IsRepetitive(before) && IsRareLine(after) && pos < 2
    requires |c| == 64 && forall k :: 0 <= k < 64 ==> c[k] == 4 + 2 * k
    ensures AllLonely(before, c, 0, 64, after, pos) && Behind(c, 0, pos + 1)
  {}

  lemma AllLonelyA(before: seq<Token>, after: seq<Token>, a: seq<nat>)
    requires IsRepetitive(before) && IsRareLine(after)
    requires |a| == 64 && (forall k :: 0 <= k < 63 ==> a[k] == 132 + 2 * k) && a[63] == 260
    ensures AllLonely(before, a, 1, 63, after, 2) && Behind(a, 1, 4)
  {}

  lemma FirstC(h: Occurrences, before: seq<Token>, after: seq<Token>, c: seq<nat>, a: seq<nat>)
    requires IsRepetitive(before) && IsRareLine(after) && Repeats(h, c, a) && Occurs(before, 0, c)
    ensures Tried(h, before, after, 0, c, 0, NOTHING, 1) == (Best(Lcs(4, 0, 1), 64), 1)
  {
    AllLonelyC(before, after, c, 0);
    LonelyBlock(h, before, 4, after, 0);
    TriedStep(h, before, after, 0, c, 0, NOTHING, 1, Lcs(4, 0, 1), Best(Lcs(4, 0, 1), 64), 1);
    LonelyTried(h, before, after, 0, c, 1, 64, Best(Lcs(4, 0, 1), 64), 1);
  }

  lemma SecondC(h: Occurrences, before: seq<Token>, after: seq<Token>, c: seq<nat>, a: seq<nat>)
    requires IsRepetitive(before) && IsRareLine(after) && Repeats(h, c, a) && Occurs(before, 0, c)
    ensures Tried(h, before, after, 1, c, 0, Best(Lcs(4, 0, 1), 64), 2) == (Best(Lcs(4, 0, 1), 64), 2)
  {
    AllLonelyC(before, after, c, 1);
    LonelyTried(h, before, after, 1, c, 0, 64, Best(Lcs(4, 0, 1), 64), 2);
  }

  lemma ThirdA(h: Occurrences, before: seq<Token>, after: seq<Token>, c: seq<nat>, a: seq<nat>)
    requires IsRepetitive(before) && IsRareLine(after) && Repeats(h, c, a) && Occurs(before, 1, a)
    ensures Tried(h, before, after, 2, a, 0, Best(Lcs(4, 0, 1), 64), 3) == (Best(Lcs(258, 0, 3), 64), 4)
  {
    var first, last := Best(Lcs(132, 2, 2), 1), Best(Lcs(258, 0, 3), 64);
    BlockUnique(before, 132, after, 2, first.lcs);
    assert Rarest(h, before, 132, 133) == 64;
    TriedStep(h, before, after, 2, a, 0, Best(Lcs(4, 0, 1), 64), 3, first.lcs, first, 4);
    AllLonelyA(before, after, a);
    LonelyTried(h, before, after, 2, a, 1, 63, first, 4);
    BlockUnique(before, 260, after, 2, last.lcs);
    assert Rarest(h, before, 258, 259) == 64;
    assert Rarest(h, before, 258, 260) == 64;
    TriedStep(h, before, after, 2, a, 63, first, 4, last.lcs, last, 4);
    TriedEnd(h, before, after, 2, a, 64, last, 4);
  }

  lemma RepetitiveSearch(h: Occurrences, before: seq<Token>, after: seq<Token>, c: seq<nat>, a: seq<nat>)
    requires IsRepetitive(before) && IsRareLine(after) && Repeats(h, c, a) && Indexes(h, before)
    ensures FindBlock(h, before, after).None?
  {
    assert Occurs(before, 0, PlacesOf(h, 0)) && Occurs(before, 1, PlacesOf(h, 1));
    FirstC(h, before, after, c, a);
    SecondC(h, before, after, c, a);
    ThirdA(h, before, after, c, a);
    var one, two := Best(Lcs(4, 0, 1), 64), Best(Lcs(258, 0, 3), 64);
    assert Searched(h, before, after, 0, NOTHING, false) == Searched(h, before, after, 1, one, true);
    assert Searched(h, before, after, 1, one, true) == Searched(h, before, after, 2, one, true);
    assert Searched(h, before, after, 2, one, true) == Searched(h, before, after, 4, two, true);
  }

  /** The search gives up although the files share a token that occurs only once. */
  lemma GivesUpOnRare()
    ensures BlockOf(REPETITIVE, RARE_LINE).None?
    ensures RARE_LINE[3] in REPETITIVE && multiset(REPETITIVE)[RARE_LINE[3]] == 1
  {
    GivesUpOnRareIn(REPETITIVE, RARE_LINE);
  }

  lemma GivesUpOnRareIn(before: seq<Token>, after: seq<Token>)
    requires IsRepetitive(before) && IsRareLine(after)
    ensures BlockOf(before, after).None? && 2 in before && multiset(before)[2] == 1
  {
    PlacesOfR(before, 261);
    PlacesCount(before, 2, 261);
    assert before[..261] == before && before[133] == 2;
    HistogramIndexes(before);
    HistogramRepeats(before);
    RepetitiveSearch(HistogramOf(before), before, after, Places(before, 0, 261), Places(before, 1, 261));
  }

  lemma HistogramRepeats(before: seq<Token>)
    requires IsRepetitive(before)
    ensures Repeats(HistogramOf(before), Places(before, 0, 261), Places(before, 1, 261))
  {
    PlacesOfC(before, 261);
    PlacesOfA(before, 260);
    PlacesOfR(before, 261);
    assert before[..261] == before && before[4] == 0 && before[260] == 1 && before[133] == 2;
  }
}
