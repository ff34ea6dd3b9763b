/**
 * `gix-glob/src/wildmatch.rs`: Git's backtracking glob matcher.
 *
 * A Rust sub-slice `pattern[k..]` or `text[k..]` is an offset into the whole pattern or text here,
 * so one declarative relation `Glob` speaks about every recursive call.
 */
module Wildmatch {
  import opened Bytes
  import opened Wrappers

  datatype Mode = Mode(path: bool, fold: bool)

  const STAR: Byte := '*' as int
  const QUESTION: Byte := '?' as int
  const BACKSLASH: Byte := 92
  const SLASH: Byte := '/' as int
  const BRACKET_OPEN: Byte := '[' as int
  const BRACKET_CLOSE: Byte := ']' as int
  const COLON: Byte := ':' as int
  const DASH: Byte := '-' as int
  const BANG: Byte := '!' as int
  const CARET: Byte := '^' as int
  const RECURSION_LIMIT: nat := 64

  function Fold(b: Byte, m: Mode): Byte { if m.fold then ToLower(b) else b }

  predicate IsGlobChar(b: Byte) { b == STAR || b == QUESTION || b == BRACKET_OPEN || b == BACKSLASH }

  // ---------------------------------------------------------------------------------------------
  // One pattern item that consumes exactly one text byte.
  // ---------------------------------------------------------------------------------------------

  datatype Step =
    | Dangling                         // a backslash with nothing behind it
    | Malformed                        // a bracket expression that never closes, or an unknown class
    | Consume(next: nat, hit: bool)    // continue the pattern at `next` if `hit`

  const CLASS_NAMES: seq<string> :=
    ["alnum", "alpha", "blank", "cntrl", "digit", "graph", "lower", "print", "punct", "space", "upper", "xdigit"]

  /** The index of the POSIX class `name` in `CLASS_NAMES`, or its length for a class Git does not know. */
  function FindClass(name: seq<int>, i: nat): (r: nat)
    requires i <= |CLASS_NAMES|
    ensures i <= r <= |CLASS_NAMES|
    decreases |CLASS_NAMES| - i
  {
    if i < |CLASS_NAMES| && name != Ascii(CLASS_NAMES[i]) then FindClass(name, i + 1) else i
  }

  /** Does `t` belong to the class with the given index? */
  predicate InClass(id: nat, t: Byte, fold: bool) {
    match id
    case 0 => IsAlpha(t) || IsDigit(t)
    case 1 => IsAlpha(t)
    case 2 => t == 32 || t == 9
    case 3 => t < 32 || t == 127
    case 4 => IsDigit(t)
    case 5 => IsGraphic(t)
    case 6 => IsLower(t)
    case 7 => 0x20 <= t <= 0x7e
    case 8 => IsGraphic(t) && !IsAlpha(t) && !IsDigit(t)
    case 9 => t == 32 || t == 9 || t == 10 || t == 13
    case 10 => IsUpper(t) || (fold && IsLower(t))
    case _ => IsDigit(t) || 'a' as int <= t <= 'f' as int || 'A' as int <= t <= 'F' as int
  }

  /** Is `t` in the range `lo-hi`, with Git's upper-case retry when case is folded? */
  predicate InRange(lo: Byte, hi: Byte, t: Byte, fold: bool) {
    || lo <= t <= hi
    || (&& fold && IsLower(t)
        && (|| ToUpper(lo) <= ToUpper(t) <= ToUpper(hi)
            || ToUpper(hi) <= ToUpper(t) <= ToUpper(lo)))
  }

  /** The first `]` at or after `k`, or `|p|`. */
  function FindClose(p: seq<Byte>, k: nat): (r: nat)
    requires k <= |p|
    ensures k <= r <= |p|
    decreases |p| - k
  {
    if k < |p| && p[k] != BRACKET_CLOSE then FindClose(p, k + 1) else k
  }

  datatype BracketItem = Broken | Next(k: nat, prev: Byte, hit: bool)

  /**
   * One item of a bracket expression. `prev` is the byte a range could start with, 0 if there is none.
   * An escaped byte becomes the start of a range only if it differs from the text byte `t`, and in front of a `:`
   * that does not begin the name of a class, `[` is a byte like any other.
   */
  function NextItem(p: seq<Byte>, k: nat, t: Byte, m: Mode, prev: Byte): (r: BracketItem)
    requires k < |p|
    ensures r.Next? ==> k < r.k <= |p|
  {
    var c := Fold(p[k], m);
    if p[k] == BACKSLASH then
      if k + 1 == |p| then Broken
      else if Fold(p[k + 1], m) == t then Next(k + 2, prev, true)
      else Next(k + 2, Fold(p[k + 1], m), false)
    else if p[k] == DASH && prev != 0 && k + 1 < |p| && p[k + 1] != BRACKET_CLOSE then
      if p[k + 1] != BACKSLASH then Next(k + 2, 0, InRange(prev, Fold(p[k + 1], m), t, m.fold))
      else if k + 2 == |p| then Broken
      else Next(k + 3, 0, InRange(prev, Fold(p[k + 2], m), t, m.fold))
    else if p[k] == BRACKET_OPEN && k + 1 < |p| && p[k + 1] == COLON then
      var close := FindClose(p, k + 2);
      if close == |p| then Broken
      else if close == k + 2 || p[close - 1] != COLON then Next(k + 1, c, c == t)
      else
        var id := FindClass(p[k + 2..close - 1], 0);
        if id == |CLASS_NAMES| then Broken else Next(close + 1, 0, InClass(id, t, m.fold))
    else Next(k + 1, c, c == t)
  }

  /** The bracket expression from item `k` on: the first `]` after at least one item closes it. */
  function Bracket(p: seq<Byte>, k: nat, t: Byte, m: Mode, negated: bool, prev: Byte, matched: bool): (s: Step)
    ensures s.Consume? ==> k < s.next <= |p| && p[s.next - 1] == BRACKET_CLOSE
    ensures s.Consume? && s.hit ==> !(m.path && t == SLASH)
    ensures !s.Dangling?
    decreases |p| - k, 1
  {
    if k >= |p| then Malformed else BracketOn(p, k, t, m, negated, matched, NextItem(p, k, t, m, prev))
  }

  /** The bracket expression from item `k` on, which is `item`. */
  function BracketOn(p: seq<Byte>, k: nat, t: Byte, m: Mode, negated: bool, matched: bool, item: BracketItem): (s: Step)
    requires k < |p| && (item.Next? ==> k < item.k <= |p|)
    ensures s.Consume? ==> k < s.next <= |p| && p[s.next - 1] == BRACKET_CLOSE
    ensures s.Consume? && s.hit ==> !(m.path && t == SLASH)
    ensures !s.Dangling?
    decreases |p| - k, 0
  {
    match item
    case Broken => Malformed
    case Next(k', prev, hit) =>
      if k' < |p| && p[k'] == BRACKET_CLOSE then
        Consume(k' + 1, (matched || hit) != negated && !(m.path && t == SLASH))
      else Bracket(p, k', t, m, negated, prev, matched || hit)
  }

  /** The item at `i`, which is not a `*`, against the folded text byte `t`. */
  function Item(p: seq<Byte>, i: nat, t: Byte, m: Mode): (s: Step)
    requires i < |p| && p[i] != STAR
    ensures s.Consume? ==> i < s.next <= |p|
  {
    if p[i] == BACKSLASH then
      if i + 1 < |p| then Consume(i + 2, Fold(p[i + 1], m) == t) else Dangling
    else if p[i] == QUESTION then Consume(i + 1, !(m.path && t == SLASH))
    else if p[i] == BRACKET_OPEN then
      var negated := i + 1 < |p| && (p[i + 1] == CARET || p[i + 1] == BANG);
      Bracket(p, if negated then i + 2 else i + 1, t, m, negated, 0, false)
    else Consume(i + 1, Fold(p[i], m) == t)
  }

  // ---------------------------------------------------------------------------------------------
  // The declarative meaning of a glob.
  // ---------------------------------------------------------------------------------------------

  /** The end of the run of `*` that starts at `i`. */
  function RunEnd(p: seq<Byte>, i: nat): (n: nat)
    requires i < |p|
    ensures i < n <= |p| && (n == |p| || p[n] != STAR)
    ensures p[i] == STAR ==> p[n - 1] == STAR
    decreases |p| - i
  {
    if i + 1 < |p| && p[i + 1] == STAR then RunEnd(p, i + 1) else i + 1
  }

  /** `**` alone between slashes (or pattern ends): the only run that crosses `/` in path mode. */
  predicate Bounded(p: seq<Byte>, i: nat, m: Mode)
    requires i < |p|
  {
    var n := RunEnd(p, i);
    && m.path && n >= i + 2
    && (i == 0 || p[i - 1] == SLASH)
    && (n == |p| || p[n] == SLASH || (p[n] == BACKSLASH && n + 1 < |p| && p[n + 1] == SLASH))
  }

  predicate Crosses(p: seq<Byte>, i: nat, m: Mode)
    requires i < |p|
  {
    !m.path || Bounded(p, i, m)
  }

  ghost predicate SlashFree(t: seq<Byte>, j: nat, k: nat) {
    forall x :: j <= x < k && x < |t| ==> t[x] != SLASH
  }

  /** The pattern from `i` matches the text from `j`. */
  ghost predicate Glob(p: seq<Byte>, i: nat, t: seq<Byte>, j: nat, m: Mode)
    requires i <= |p| && j <= |t|
    decreases |p| - i
  {
    if i == |p| then j == |t|
    else if p[i] == STAR then
      var n := RunEnd(p, i);
      || (exists k :: j <= k <= |t| && (Crosses(p, i, m) || SlashFree(t, j, k)) && Glob(p, n, t, k, m))
      || (Bounded(p, i, m) && n < |p| && Glob(p, n + 1, t, j, m))     // `**/` stands for no directory at all
    else
      && j < |t|
      && var s := Item(p, i, Fold(t[j], m), m);
         s.Consume? && s.hit && Glob(p, s.next, t, j + 1, m)
  }

  // ---------------------------------------------------------------------------------------------
  // The matcher, as a function.
  // ---------------------------------------------------------------------------------------------

  datatype MatchResult = Match | NoMatch | AbortAll | AbortToStarStar | RecursionLimitReached

  /** The first `/` at or after `j`, or `|t|`. */
  function FindSlash(t: seq<Byte>, j: nat): (r: nat)
    requires j <= |t|
    ensures j <= r <= |t| && (r < |t| ==> t[r] == SLASH)
    ensures forall x :: j <= x < r ==> t[x] != SLASH
    decreases |t| - j
  {
    if j < |t| && t[j] != SLASH then FindSlash(t, j + 1) else j
  }

  /** Where a `*` before the literal `c` stops: at `c`, at a `/` it may not cross, or at the end of the text. */
  function Seek(t: seq<Byte>, k: nat, c: Byte, cross: bool, m: Mode): (r: nat)
    requires k <= |t|
    ensures k <= r <= |t|
    ensures r < |t| ==> Fold(t[r], m) == c || (!cross && t[r] == SLASH)
    ensures forall x :: k <= x < r ==> Fold(t[x], m) != c && (cross || t[x] != SLASH)
    decreases |t| - k
  {
    if k < |t| && Fold(t[k], m) != c && (cross || t[k] != SLASH) then Seek(t, k + 1, c, cross, m) else k
  }

  /** A call of `match_recursive` on `pattern[ps..]` and `text[ts..]`. */
  function Call(p: seq<Byte>, ps: nat, t: seq<Byte>, ts: nat, m: Mode, depth: nat): MatchResult
    requires ps <= |p| && ts <= |t|
    decreases |p| - ps, 3, 0
  {
    if depth == RECURSION_LIMIT then RecursionLimitReached else Walk(p, ps, ps, t, ts, m, depth)
  }

  /** The main loop of a call whose pattern slice starts at `ps`, with the iterators at `i` and `j`. */
  function Walk(p: seq<Byte>, ps: nat, i: nat, t: seq<Byte>, j: nat, m: Mode, depth: nat): MatchResult
    requires ps <= i <= |p| && j <= |t|
    decreases |p| - i, 2, 0
  {
    if i == |p| then if j == |t| then Match else NoMatch
    else if p[i] == STAR then Star(p, ps, i, t, j, m, depth)
    else if j == |t| then AbortAll
    else
      match Item(p, i, Fold(t[j], m), m)
      case Dangling => NoMatch
      case Malformed => AbortAll
      case Consume(next, hit) => if hit then Walk(p, ps, next, t, j + 1, m, depth) else NoMatch
  }

  /** The run of `*` at `i`: leading-slash test relative to the slice, the `**` attempt, then the search. */
  function Star(p: seq<Byte>, ps: nat, i: nat, t: seq<Byte>, j: nat, m: Mode, depth: nat): MatchResult
    requires ps <= i < |p| && j <= |t|
    decreases |p| - i, 1, 0
  {
    var n := RunEnd(p, i);
    var bounded :=
      && m.path && n >= i + 2
      && (i == ps || p[i - 1] == SLASH)
      && (n == |p| || p[n] == SLASH || (p[n] == BACKSLASH && n + 1 < |p| && p[n + 1] == SLASH));
    var cross := !m.path || bounded;
    if bounded && n < |p| && Call(p, n + 1, t, j, m, depth + 1) == Match then Match
    else if n == |p| then if !cross && FindSlash(t, j) < |t| then AbortToStarStar else Match
    else if !cross && p[n] == SLASH then
      var s := FindSlash(t, j);
      if s < |t| then Walk(p, ps, n + 1, t, s + 1, m, depth) else AbortAll
    else Retry(p, n, t, j, cross, m, depth)
  }

  /** Where a `*` in front of the byte `first` tries the rest of the pattern next, if anywhere. */
  function TryAt(first: Byte, t: seq<Byte>, k: nat, cross: bool, m: Mode): (r: Option<nat>)
    requires k <= |t|
    ensures r.Some? ==> k <= r.value <= |t| && (cross || SlashFree(t, k, r.value))
  {
    if IsGlobChar(first) then Some(k)
    else
      var c, r := Fold(first, m), Seek(t, k, Fold(first, m), cross, m);
      if (if r == |t| then k < |t| || c != 0 else Fold(t[r], m) != c) then None else Some(r)
  }

  /** What follows from the result at `r`: the answer, or nothing if the next position is to be tried. */
  function AfterTry(res: MatchResult, t: seq<Byte>, r: nat, cross: bool): Option<MatchResult> {
    if res != NoMatch && (!cross || res != AbortToStarStar) then Some(res)
    else if res == NoMatch && !cross && r < |t| && t[r] == SLASH then Some(AbortToStarStar)
    else if r + 1 < |t| then None
    else Some(AbortAll)
  }

  /** The answer if there is nowhere to try. */
  function Nowhere(cross: bool): MatchResult { if cross then AbortAll else AbortToStarStar }

  /** The retry loop of a `*` in front of the pattern from `n`, with the text iterator at `k`. */
  function Retry(p: seq<Byte>, n: nat, t: seq<Byte>, k: nat, cross: bool, m: Mode, depth: nat): MatchResult
    requires n < |p| && k <= |t|
    decreases |p| - n, 4, |t| - k
  {
    match TryAt(p[n], t, k, cross, m)
    case None => Nowhere(cross)
    case Some(r) =>
      var after := AfterTry(Call(p, n, t, r, m, depth + 1), t, r, cross);
      if after.Some? then after.value else Retry(p, n, t, r + 1, cross, m, depth)
  }

  // ---------------------------------------------------------------------------------------------
  // Soundness: a match is always a match of the glob, whatever the limits and aborts do.
  // ---------------------------------------------------------------------------------------------

  /** Every slice the matcher recurses into starts where the slice-relative slash test is the absolute one. */
  predicate SliceStart(p: seq<Byte>, ps: nat) {
    ps == 0 || ps >= |p| || p[ps - 1] == SLASH || p[ps] != STAR
  }

  lemma {:induction false} WalkSound(p: seq<Byte>, ps: nat, i: nat, t: seq<Byte>, j: nat, m: Mode, depth: nat)
    requires ps <= i <= |p| && j <= |t| && SliceStart(p, ps)
    ensures Walk(p, ps, i, t, j, m, depth) == Match ==> Glob(p, i, t, j, m)
    decreases |p| - i, 2, 0
  {
    if i == |p| {
    } else if p[i] == STAR {
      StarSound(p, ps, i, t, j, m, depth);
    } else if j < |t| {
      var s := Item(p, i, Fold(t[j], m), m);
      if s.Consume? && s.hit {
        WalkSound(p, ps, s.next, t, j + 1, m, depth);
      }
    }
  }

  lemma {:induction false} StarSound(p: seq<Byte>, ps: nat, i: nat, t: seq<Byte>, j: nat, m: Mode, depth: nat)
    requires ps <= i < |p| && j <= |t| && SliceStart(p, ps) && p[i] == STAR
    ensures Star(p, ps, i, t, j, m, depth) == Match ==> Glob(p, i, t, j, m)
    decreases |p| - i, 1, 0
  {
    var n := RunEnd(p, i);
    var cross := Crosses(p, i, m);
    if Bounded(p, i, m) && n < |p| && Call(p, n + 1, t, j, m, depth + 1) == Match {
      WalkSound(p, n + 1, n + 1, t, j, m, depth + 1);
    } else if n == |p| {
      assert Glob(p, n, t, |t|, m);
      var s := FindSlash(t, j);
      assert s == |t| ==> SlashFree(t, j, |t|);
    } else if !cross && p[n] == SLASH {
      var s := FindSlash(t, j);
      if s < |t| {
        WalkSound(p, ps, n + 1, t, s + 1, m, depth);
        assert SlashFree(t, j, s);
        if Walk(p, ps, n + 1, t, s + 1, m, depth) == Match {
          assert Glob(p, n, t, s, m);
        }
      }
    } else {
      RetrySound(p, n, t, j, cross, m, depth);
    }
  }

  lemma {:induction false} RetrySound(p: seq<Byte>, n: nat, t: seq<Byte>, k: nat, cross: bool, m: Mode, depth: nat)
    requires n < |p| && k <= |t| && p[n] != STAR
    ensures Retry(p, n, t, k, cross, m, depth) == Match ==>
              exists q :: k <= q <= |t| && (cross || SlashFree(t, k, q)) && Glob(p, n, t, q, m)
    decreases |p| - n, 4, |t| - k
  {
    var at := TryAt(p[n], t, k, cross, m);
    if at.Some? && Retry(p, n, t, k, cross, m, depth) == Match {
      var r := at.value;
      WalkSound(p, n, n, t, r, m, depth + 1);
      if Call(p, n, t, r, m, depth + 1) == Match {
        assert Glob(p, n, t, r, m);
      } else {
        RetrySound(p, n, t, r + 1, cross, m, depth);
        var q :| r + 1 <= q <= |t| && (cross || SlashFree(t, r + 1, q)) && Glob(p, n, t, q, m);
        assert cross || SlashFree(t, k, q);
      }
    }
  }

  // ---------------------------------------------------------------------------------------------
  // Completeness: what each result code promises.
  // ---------------------------------------------------------------------------------------------

  predicate Accepts(s: Step) { s.Consume? && s.hit }

  /** What one text byte meets at an item excludes nothing that another one is offered. */
  predicate Agree(s: Step, u: Step) {
    && (Accepts(s) && Accepts(u) ==> s.next == u.next)
    && (s.Malformed? ==> !Accepts(u))
    && (u.Malformed? ==> !Accepts(s))
  }

  /** Bytes of the text as the matcher sees them. */
  predicate Folded(b: Byte, m: Mode) { Fold(b, m) == b }

  predicate Accepted(p: seq<Byte>, i: nat, b: Byte, m: Mode)
    requires i < |p| && p[i] != STAR
  {
    Folded(b, m) && Accepts(Item(p, i, b, m))
  }

  predicate AgreeOn(p: seq<Byte>, i: nat, b: Byte, c: Byte, m: Mode)
    requires i < |p| && p[i] != STAR
  {
    Folded(b, m) && Folded(c, m) ==> Agree(Item(p, i, b, m), Item(p, i, c, m))
  }

  /** All bytes the item accepts lead to the same place, and it is malformed for none or accepts none. */
  predicate SteadyItem(p: seq<Byte>, i: nat, m: Mode)
    requires i < |p| && p[i] != STAR
  {
    forall b, c :: 0 <= b < 256 && 0 <= c < 256 ==> AgreeOn(p, i, b, c, m)
  }

  /** Every item that the pattern can reach from `i` is steady. */
  predicate Steady(p: seq<Byte>, i: nat, m: Mode)
    decreases |p| - i, 1
  {
    if i >= |p| then true
    else if p[i] == STAR then Steady(p, RunEnd(p, i), m)
    else SteadyItem(p, i, m) && forall b :: 0 <= b < 256 ==> SteadyBehind(p, i, b, m)
  }

  predicate SteadyBehind(p: seq<Byte>, i: nat, b: Byte, m: Mode)
    requires i < |p| && p[i] != STAR
    decreases |p| - i, 0
  {
    Accepted(p, i, b, m) ==> Steady(p, Item(p, i, b, m).next, m)
  }

  /** The first byte from `b` on that the item accepts, or 256. */
  function FirstAccepted(p: seq<Byte>, i: nat, b: nat, m: Mode): (r: nat)
    requires i < |p| && p[i] != STAR && b <= 256
    ensures b <= r <= 256 && (r < 256 ==> Accepted(p, i, r, m))
    ensures forall c :: b <= c < r ==> !Accepted(p, i, c, m)
    decreases 256 - b
  {
    if b < 256 && !Accepted(p, i, b, m) then FirstAccepted(p, i, b + 1, m) else b
  }

  /**
   * The recursion a match of the pattern from `i` needs: one level for every run of `*` that something
   * follows, except for a component-local run in front of `/`, which the loop handles in place.
   */
  function Levels(p: seq<Byte>, i: nat, m: Mode): nat
    decreases |p| - i
  {
    if i >= |p| then 0
    else if p[i] == STAR then
      var n := RunEnd(p, i);
      if n == |p| then 0
      else if !Crosses(p, i, m) && p[n] == SLASH then Levels(p, n + 1, m)
      else 1 + Levels(p, n, m)
    else
      var b := FirstAccepted(p, i, 0, m);
      if b < 256 then Levels(p, Item(p, i, b, m).next, m) else 0
  }

  /** What is steady stays so behind an accepted byte, and the levels are those behind it. */
  lemma SteadyNext(p: seq<Byte>, i: nat, b: Byte, m: Mode)
    requires i < |p| && p[i] != STAR && Steady(p, i, m) && Accepted(p, i, b, m)
    ensures Steady(p, Item(p, i, b, m).next, m)
    ensures Levels(p, i, m) == Levels(p, Item(p, i, b, m).next, m)
  {
    var f := FirstAccepted(p, i, 0, m);
    assert AgreeOn(p, i, f, b, m) && SteadyBehind(p, i, b, m);
  }

  lemma SteadyLiteral(p: seq<Byte>, i: nat, m: Mode)
    requires i < |p| && !IsGlobChar(p[i]) && Steady(p, i + 1, m)
    ensures Steady(p, i, m)
  {
    forall b: Byte
      ensures SteadyBehind(p, i, b, m)
    {
      assert Item(p, i, b, m).next == i + 1;
    }
    assert SteadyItem(p, i, m);
  }

  /** The same behind the slash that a run ends at, or its backslash. */
  lemma SteadyBehindSlash(p: seq<Byte>, n: nat, m: Mode)
    requires n < |p| && (p[n] == SLASH || (p[n] == BACKSLASH && n + 1 < |p| && p[n + 1] == SLASH)) && Steady(p, n, m)
    ensures Steady(p, n + 1, m) && Levels(p, n + 1, m) == Levels(p, n, m)
  {
    assert Fold(SLASH, m) == SLASH;
    SteadyNext(p, n, SLASH, m);
    if p[n] == BACKSLASH {
      SteadyLiteral(p, n + 1, m);
      SteadyNext(p, n + 1, SLASH, m);
    }
  }

  /** What the run of `*` at `i` adds to the levels of what follows it, where the search recurses. */
  lemma SearchLevels(p: seq<Byte>, i: nat, m: Mode)
    requires i < |p| && p[i] == STAR && RunEnd(p, i) < |p| && Steady(p, i, m)
    requires Crosses(p, i, m) || p[RunEnd(p, i)] != SLASH
    ensures Steady(p, RunEnd(p, i), m) && Levels(p, i, m) == 1 + Levels(p, RunEnd(p, i), m)
  {
  }

  /** ... and where it goes on behind a slash. */
  lemma SlashLevels(p: seq<Byte>, i: nat, m: Mode)
    requires i < |p| && p[i] == STAR && RunEnd(p, i) < |p| && Steady(p, i, m)
    requires Bounded(p, i, m) || (!Crosses(p, i, m) && p[RunEnd(p, i)] == SLASH)
    ensures Steady(p, RunEnd(p, i) + 1, m)
    ensures Levels(p, i, m) == Levels(p, RunEnd(p, i) + 1, m) + if Crosses(p, i, m) then 1 else 0
  {
    SteadyBehindSlash(p, RunEnd(p, i), m);
  }

  /** The text offset `k` could be where the pattern reached `i` had the slice been tried later than at `j`. */
  ghost predicate Entry(p: seq<Byte>, ps: nat, i: nat, t: seq<Byte>, j: nat, k: nat)
    requires ps <= i <= |p| && j <= k <= |t|
  {
    || k == j
    || (if i == ps then i == |p| || p[i] != STAR else p[i - 1] == SLASH ==> t[k - 1] == SLASH)
  }

  ghost predicate Means(p: seq<Byte>, ps: nat, i: nat, t: seq<Byte>, j: nat, m: Mode, res: MatchResult)
    requires ps <= i <= |p| && j <= |t|
  {
    match res
    case Match => Glob(p, i, t, j, m)
    case NoMatch => !Glob(p, i, t, j, m)
    case AbortAll => forall k :: j <= k <= |t| && Entry(p, ps, i, t, j, k) ==> !Glob(p, i, t, k, m)
    case AbortToStarStar =>
      m.path && forall k :: j <= k <= |t| && SlashFree(t, j, k) && Entry(p, ps, i, t, j, k) ==> !Glob(p, i, t, k, m)
    case RecursionLimitReached => false
  }

  /** What a retry loop promises about every text offset from `k` on. */
  ghost predicate RetryMeans(p: seq<Byte>, n: nat, t: seq<Byte>, k: nat, cross: bool, m: Mode, res: MatchResult)
    requires n <= |p| && k <= |t|
  {
    match res
    case Match => true
    case NoMatch => false
    case AbortAll => forall q :: k <= q <= |t| ==> !Glob(p, n, t, q, m)
    case AbortToStarStar =>
      m.path && !cross && forall q :: k <= q <= |t| && SlashFree(t, k, q) ==> !Glob(p, n, t, q, m)
    case RecursionLimitReached => false
  }

  lemma MeansHere(p: seq<Byte>, ps: nat, i: nat, t: seq<Byte>, j: nat, m: Mode, res: MatchResult)
    requires ps <= i <= |p| && j <= |t| && Means(p, ps, i, t, j, m, res)
    ensures res == Match <==> Glob(p, i, t, j, m)
  {
    assert Entry(p, ps, i, t, j, j) && SlashFree(t, j, j);
  }

  lemma {:induction false} WalkMeans(p: seq<Byte>, ps: nat, i: nat, t: seq<Byte>, j: nat, m: Mode, depth: nat)
    requires ps <= i <= |p| && j <= |t| && SliceStart(p, ps)
    requires Steady(p, i, m) && depth + Levels(p, i, m) < RECURSION_LIMIT
    ensures Means(p, ps, i, t, j, m, Walk(p, ps, i, t, j, m, depth))
    decreases |p| - i, 2, 0
  {
    if i == |p| {
    } else if p[i] == STAR {
      StarMeans(p, ps, i, t, j, m, depth);
    } else if j < |t| {
      var s := Item(p, i, Fold(t[j], m), m);
      if s.Consume? && s.hit {
        SteadyNext(p, i, Fold(t[j], m), m);
        WalkMeans(p, ps, s.next, t, j + 1, m, depth);
        forall k | j <= k <= |t| && Glob(p, i, t, k, m)
          ensures Advanced(p, ps, i, s.next, t, j, k, m)
        {
          ItemAdvances(p, ps, i, t, j, k, m);
        }
      } else if s.Malformed? {
        forall k | j <= k < |t|
          ensures !Glob(p, i, t, k, m)
        {
          assert AgreeOn(p, i, Fold(t[j], m), Fold(t[k], m), m);
        }
      }
    }
  }

  /** Had the item at `i` been met at `k` instead of `j`, the walk would now be at `next` and `k + 1`. */
  ghost predicate Advanced(p: seq<Byte>, ps: nat, i: nat, next: nat, t: seq<Byte>, j: nat, k: nat, m: Mode)
    requires ps <= i < next <= |p| && j <= k <= |t|
  {
    && j < |t| && k < |t| && Glob(p, next, t, k + 1, m) && Entry(p, ps, next, t, j + 1, k + 1)
    && (m.path && SlashFree(t, j, k) ==> SlashFree(t, j + 1, k + 1))
  }

  lemma ItemAdvances(p: seq<Byte>, ps: nat, i: nat, t: seq<Byte>, j: nat, k: nat, m: Mode)
    requires ps <= i < |p| && j <= k <= |t| && j < |t| && p[i] != STAR && Steady(p, i, m)
    requires var s := Item(p, i, Fold(t[j], m), m); s.Consume? && s.hit
    requires Glob(p, i, t, k, m)
    ensures Advanced(p, ps, i, Item(p, i, Fold(t[j], m), m).next, t, j, k, m)
  {
    var s, u := Item(p, i, Fold(t[j], m), m), Item(p, i, Fold(t[k], m), m);
    assert AgreeOn(p, i, Fold(t[j], m), Fold(t[k], m), m);
    if p[i] == BACKSLASH || !IsGlobChar(p[i]) {
      assert t[k] == SLASH <==> t[j] == SLASH;
    }
  }

  /** For a pattern that does not start with `*`, an abort speaks about every later position. */
  lemma MeansAtStart(p: seq<Byte>, n: nat, t: seq<Byte>, r: nat, m: Mode, res: MatchResult)
    requires n < |p| && r <= |t| && p[n] != STAR && Means(p, n, n, t, r, m, res)
    ensures res != RecursionLimitReached && (res == Match <==> Glob(p, n, t, r, m))
    ensures res == AbortAll ==> forall q :: r <= q <= |t| ==> !Glob(p, n, t, q, m)
    ensures res == AbortToStarStar ==>
              m.path && forall q :: r <= q <= |t| && SlashFree(t, r, q) ==> !Glob(p, n, t, q, m)
  {
    MeansHere(p, n, n, t, r, m, res);
    assert forall q :: r <= q <= |t| ==> Entry(p, n, n, t, r, q);
  }

  /** No match at the end of the text or between `k` and `r`. */
  ghost predicate Skipped(p: seq<Byte>, n: nat, t: seq<Byte>, k: nat, r: nat, m: Mode)
    requires n <= |p|
  {
    k <= r <= |t| && !Glob(p, n, t, |t|, m) && forall q :: k <= q < r ==> !Glob(p, n, t, q, m)
  }

  /** A literal that does not occur in reach excludes every position in reach. */
  lemma RetryMissed(p: seq<Byte>, n: nat, t: seq<Byte>, k: nat, r: nat, cross: bool, m: Mode)
    requires n < |p| && k <= |t| && p[n] != STAR && !IsGlobChar(p[n]) && (cross || m.path)
    requires Skipped(p, n, t, k, r, m) && r == Seek(t, k, Fold(p[n], m), cross, m)
          && (r < |t| ==> Fold(t[r], m) != Fold(p[n], m))
    ensures RetryMeans(p, n, t, k, cross, m, if cross then AbortAll else AbortToStarStar)
  {
  }

  /** A result that decides at `r` decides for all positions from `k` on. */
  lemma RetryHere(p: seq<Byte>, n: nat, t: seq<Byte>, k: nat, r: nat, cross: bool, m: Mode, res: MatchResult)
    requires n < |p| && p[n] != STAR && Skipped(p, n, t, k, r, m) && Means(p, n, n, t, r, m, res)
    requires res != NoMatch && (!cross || res != AbortToStarStar)
    ensures RetryMeans(p, n, t, k, cross, m, res)
  {
    MeansAtStart(p, n, t, r, m, res);
  }

  /** A slash that could not be matched ends the component. */
  lemma RetryAtSlash(p: seq<Byte>, n: nat, t: seq<Byte>, k: nat, r: nat, m: Mode)
    requires n < |p| && m.path && Skipped(p, n, t, k, r, m) && r < |t| && t[r] == SLASH && !Glob(p, n, t, r, m)
    ensures RetryMeans(p, n, t, k, false, m, AbortToStarStar)
  {
  }

  lemma RetryAtEnd(p: seq<Byte>, n: nat, t: seq<Byte>, k: nat, r: nat, cross: bool, m: Mode)
    requires n < |p| && Skipped(p, n, t, k, r, m) && r + 1 >= |t| && !Glob(p, n, t, r, m)
    ensures RetryMeans(p, n, t, k, cross, m, AbortAll)
  {
  }

  lemma RetryLater(p: seq<Byte>, n: nat, t: seq<Byte>, k: nat, r: nat, cross: bool, m: Mode, res: MatchResult)
    requires n < |p| && Skipped(p, n, t, k, r, m) && r < |t| && !Glob(p, n, t, r, m)
          && RetryMeans(p, n, t, r + 1, cross, m, res)
    ensures RetryMeans(p, n, t, k, cross, m, res)
  {
  }

  lemma {:induction false} RetryMeaning(p: seq<Byte>, n: nat, t: seq<Byte>, k: nat, cross: bool, m: Mode, depth: nat)
    requires n < |p| && k <= |t| && p[n] != STAR && (cross || m.path)
    requires Steady(p, n, m) && depth + 1 + Levels(p, n, m) < RECURSION_LIMIT
    ensures RetryMeans(p, n, t, k, cross, m, Retry(p, n, t, k, cross, m, depth))
    decreases |p| - n, 4, |t| - k
  {
    var at := TryAt(p[n], t, k, cross, m);
    SkippedMiss(p, n, t, k, cross, m);
    if at.None? {
      RetryMissed(p, n, t, k, Seek(t, k, Fold(p[n], m), cross, m), cross, m);
    } else {
      var r := at.value;
      WalkMeans(p, n, n, t, r, m, depth + 1);
      if r + 1 < |t| { RetryMeaning(p, n, t, r + 1, cross, m, depth); }
      RetryRound(p, n, t, k, r, cross, m, depth);
    }
  }

  /** One round of the retry loop, given what the call at `r` and the later rounds mean. */
  lemma RetryRound(p: seq<Byte>, n: nat, t: seq<Byte>, k: nat, r: nat, cross: bool, m: Mode, depth: nat)
    requires n < |p| && k <= |t| && p[n] != STAR && (cross || m.path) && depth + 1 < RECURSION_LIMIT
    requires TryAt(p[n], t, k, cross, m) == Some(r) && Skipped(p, n, t, k, r, m)
    requires Means(p, n, n, t, r, m, Walk(p, n, n, t, r, m, depth + 1))
    requires r + 1 < |t| ==> RetryMeans(p, n, t, r + 1, cross, m, Retry(p, n, t, r + 1, cross, m, depth))
    ensures RetryMeans(p, n, t, k, cross, m, Retry(p, n, t, k, cross, m, depth))
  {
    var res := Walk(p, n, n, t, r, m, depth + 1);
    assert Call(p, n, t, r, m, depth + 1) == res;
    var after := AfterTry(res, t, r, cross);
    if after.Some? {
      DecidedRound(p, n, t, k, r, cross, m, res);
    } else {
      MeansAtStart(p, n, t, r, m, res);
      RetryLater(p, n, t, k, r, cross, m, Retry(p, n, t, r + 1, cross, m, depth));
    }
  }

  lemma DecidedRound(p: seq<Byte>, n: nat, t: seq<Byte>, k: nat, r: nat, cross: bool, m: Mode, res: MatchResult)
    requires n < |p| && p[n] != STAR && (cross || m.path) && Skipped(p, n, t, k, r, m) && Means(p, n, n, t, r, m, res)
    requires AfterTry(res, t, r, cross).Some?
    ensures RetryMeans(p, n, t, k, cross, m, AfterTry(res, t, r, cross).value)
  {
    MeansAtStart(p, n, t, r, m, res);
    if res != NoMatch && (!cross || res != AbortToStarStar) {
      RetryHere(p, n, t, k, r, cross, m, res);
    } else if res == NoMatch && !cross && r < |t| && t[r] == SLASH {
      RetryAtSlash(p, n, t, k, r, m);
    } else {
      RetryAtEnd(p, n, t, k, r, cross, m);
    }
  }

  /** The literal a `*` searches for is the first byte of whatever the rest of the pattern matches. */
  lemma SkippedMiss(p: seq<Byte>, n: nat, t: seq<Byte>, k: nat, cross: bool, m: Mode)
    requires n < |p| && k <= |t| && p[n] != STAR
    ensures !Glob(p, n, t, |t|, m)
    ensures !IsGlobChar(p[n]) ==>
              forall q :: k <= q < Seek(t, k, Fold(p[n], m), cross, m) ==> !Glob(p, n, t, q, m)
  {}

  lemma {:induction false} StarMeans(p: seq<Byte>, ps: nat, i: nat, t: seq<Byte>, j: nat, m: Mode, depth: nat)
    requires ps <= i < |p| && j <= |t| && SliceStart(p, ps) && p[i] == STAR
    requires Steady(p, i, m) && depth + Levels(p, i, m) < RECURSION_LIMIT
    ensures Means(p, ps, i, t, j, m, Star(p, ps, i, t, j, m, depth))
    decreases |p| - i, 1, 1
  {
    var n := RunEnd(p, i);
    if n == |p| {
      TrailingStarMeans(p, ps, i, t, j, m);
    } else if !Crosses(p, i, m) && p[n] == SLASH {
      StarSlashMeans(p, ps, i, t, j, m, depth);
    } else {
      StarSound(p, ps, i, t, j, m, depth);
      if Bounded(p, i, m) { OverMeans(p, i, t, j, m, depth); }
      if !(Bounded(p, i, m) && Glob(p, n + 1, t, j, m)) {
        SearchMeans(p, i, t, j, m, depth);
        StarRetryMeans(p, ps, i, t, j, m, Retry(p, n, t, j, Crosses(p, i, m), m, depth));
      }
    }
  }

  /** That a bounded run stands for no directory at all is tried first. */
  lemma {:induction false} OverMeans(p: seq<Byte>, i: nat, t: seq<Byte>, j: nat, m: Mode, depth: nat)
    requires i < |p| && j <= |t| && p[i] == STAR && RunEnd(p, i) < |p| && Bounded(p, i, m)
    requires Steady(p, i, m) && depth + Levels(p, i, m) < RECURSION_LIMIT
    ensures Call(p, RunEnd(p, i) + 1, t, j, m, depth + 1) == Match <==> Glob(p, RunEnd(p, i) + 1, t, j, m)
    decreases |p| - i, 1, 0
  {
    SlashLevels(p, i, m);
    CallMeans(p, RunEnd(p, i) + 1, t, j, m, depth + 1);
  }

  /** A call with enough levels decides. */
  lemma {:induction false} CallMeans(p: seq<Byte>, ps: nat, t: seq<Byte>, j: nat, m: Mode, depth: nat)
    requires ps <= |p| && j <= |t| && SliceStart(p, ps) && Steady(p, ps, m)
    requires depth + Levels(p, ps, m) < RECURSION_LIMIT
    ensures Call(p, ps, t, j, m, depth) == Match <==> Glob(p, ps, t, j, m)
    decreases |p| - ps, 3, 0
  {
    WalkMeans(p, ps, ps, t, j, m, depth);
    MeansHere(p, ps, ps, t, j, m, Walk(p, ps, ps, t, j, m, depth));
  }

  lemma {:induction false} SearchMeans(p: seq<Byte>, i: nat, t: seq<Byte>, j: nat, m: Mode, depth: nat)
    requires i < |p| && j <= |t| && p[i] == STAR && RunEnd(p, i) < |p| && (Crosses(p, i, m) || p[RunEnd(p, i)] != SLASH)
    requires Steady(p, i, m) && depth + Levels(p, i, m) < RECURSION_LIMIT
    ensures var n, cross := RunEnd(p, i), Crosses(p, i, m);
            RetryMeans(p, n, t, j, cross, m, Retry(p, n, t, j, cross, m, depth))
    decreases |p| - i, 1, 0
  {
    SearchLevels(p, i, m);
    RetryMeaning(p, RunEnd(p, i), t, j, Crosses(p, i, m), m, depth);
  }

  lemma TrailingStarMeans(p: seq<Byte>, ps: nat, i: nat, t: seq<Byte>, j: nat, m: Mode)
    requires ps <= i < |p| && j <= |t| && p[i] == STAR && RunEnd(p, i) == |p|
    ensures Means(p, ps, i, t, j, m, if !Crosses(p, i, m) && FindSlash(t, j) < |t| then AbortToStarStar else Match)
  {
    var s := FindSlash(t, j);
    assert Glob(p, |p|, t, |t|, m) && (s == |t| ==> SlashFree(t, j, |t|));
    forall k | j <= k <= |t| && SlashFree(t, j, k) && s < |t| && !Crosses(p, i, m)
      ensures !Glob(p, i, t, k, m)
    {
      assert k <= s;
    }
  }

  /** What the retry loop knows about the rest is what the run knows about itself. */
  lemma StarRetryMeans(p: seq<Byte>, ps: nat, i: nat, t: seq<Byte>, j: nat, m: Mode, res: MatchResult)
    requires ps <= i < |p| && j <= |t| && SliceStart(p, ps) && p[i] == STAR && RunEnd(p, i) < |p|
    requires RetryMeans(p, RunEnd(p, i), t, j, Crosses(p, i, m), m, res) && (res == Match ==> Glob(p, i, t, j, m))
    requires !(Bounded(p, i, m) && Glob(p, RunEnd(p, i) + 1, t, j, m))
    ensures Means(p, ps, i, t, j, m, res)
  {
    var n, cross := RunEnd(p, i), Crosses(p, i, m);
    forall k | j <= k <= |t| && Entry(p, ps, i, t, j, k) && Glob(p, i, t, k, m)
      ensures exists q :: j <= q <= |t| && Glob(p, n, t, q, m) && (cross || (k <= q && SlashFree(t, k, q)))
    {
      var q := StarDescends(p, ps, i, t, j, k, m);
    }
  }

  /** A run that matches from `k` on leaves its rest a match somewhere at or after `j`, without the `**` shortcut. */
  lemma StarDescends(p: seq<Byte>, ps: nat, i: nat, t: seq<Byte>, j: nat, k: nat, m: Mode) returns (q: nat)
    requires ps <= i < |p| && j <= k <= |t| && SliceStart(p, ps) && p[i] == STAR && RunEnd(p, i) < |p|
    requires Entry(p, ps, i, t, j, k) && Glob(p, i, t, k, m)
    requires k == j ==> !(Bounded(p, i, m) && Glob(p, RunEnd(p, i) + 1, t, j, m))
    ensures j <= q <= |t| && Glob(p, RunEnd(p, i), t, q, m)
    ensures !Crosses(p, i, m) ==> k <= q && SlashFree(t, k, q)
  {
    var n := RunEnd(p, i);
    if Bounded(p, i, m) && Glob(p, n + 1, t, k, m) {
      if p[n] == SLASH {
        q := k - 1;
        assert t[k - 1] == SLASH;
        assert Glob(p, n, t, k - 1, m);
      } else {
        q := k;
        assert p[n + 1] == SLASH;
      }
    } else {
      q :| k <= q <= |t| && (Crosses(p, i, m) || SlashFree(t, k, q)) && Glob(p, n, t, q, m);
    }
  }

  /** `*` directly before `/`: every match must reach the first slash, from which the walk goes on. */
  lemma {:induction false} StarSlashMeans(p: seq<Byte>, ps: nat, i: nat, t: seq<Byte>, j: nat, m: Mode, depth: nat)
    requires ps <= i < |p| && j <= |t| && SliceStart(p, ps) && p[i] == STAR
    requires RunEnd(p, i) < |p| && p[RunEnd(p, i)] == SLASH && !Crosses(p, i, m)
    requires Steady(p, i, m) && depth + Levels(p, i, m) < RECURSION_LIMIT
    ensures var n, s := RunEnd(p, i), FindSlash(t, j);
            Means(p, ps, i, t, j, m, if s < |t| then Walk(p, ps, n + 1, t, s + 1, m, depth) else AbortAll)
    decreases |p| - i, 1, 0
  {
    var n, s := RunEnd(p, i), FindSlash(t, j);
    if s < |t| { BehindSlashMeans(p, ps, i, t, s, m, depth); }
    SlashMeans(p, ps, i, t, j, m, if s < |t| then Walk(p, ps, n + 1, t, s + 1, m, depth) else AbortAll);
  }

  lemma {:induction false} BehindSlashMeans(p: seq<Byte>, ps: nat, i: nat, t: seq<Byte>, s: nat, m: Mode, depth: nat)
    requires ps <= i < |p| && s < |t| && SliceStart(p, ps) && p[i] == STAR
    requires RunEnd(p, i) < |p| && p[RunEnd(p, i)] == SLASH && !Crosses(p, i, m)
    requires Steady(p, i, m) && depth + Levels(p, i, m) < RECURSION_LIMIT
    ensures var n := RunEnd(p, i); Means(p, ps, n + 1, t, s + 1, m, Walk(p, ps, n + 1, t, s + 1, m, depth))
    decreases |p| - i, 0, 0
  {
    SlashLevels(p, i, m);
    WalkMeans(p, ps, RunEnd(p, i) + 1, t, s + 1, m, depth);
  }

  /** What is known behind the first slash is known in front of it. */
  lemma SlashMeans(p: seq<Byte>, ps: nat, i: nat, t: seq<Byte>, j: nat, m: Mode, res: MatchResult)
    requires ps <= i < |p| && j <= |t| && p[i] == STAR && !Crosses(p, i, m)
    requires RunEnd(p, i) < |p| && p[RunEnd(p, i)] == SLASH
    requires var n, s := RunEnd(p, i), FindSlash(t, j);
             if s < |t| then Means(p, ps, n + 1, t, s + 1, m, res) else res == AbortAll
    ensures Means(p, ps, i, t, j, m, res)
  {
    var n, s := RunEnd(p, i), FindSlash(t, j);
    assert SlashFree(t, j, s);
    if s < |t| && Glob(p, n + 1, t, s + 1, m) {
      assert Glob(p, n, t, s, m);
    }
    forall k | j <= k <= |t| && Glob(p, i, t, k, m)
      ensures s < |t| && exists q :: SlashReached(p, n, t, s, k, q, m) && (SlashFree(t, j, k) ==> q == s)
    {
      var q :| k <= q <= |t| && SlashFree(t, k, q) && Glob(p, n, t, q, m);
      assert t[q] == SLASH;
      assert SlashReached(p, n, t, s, k, q, m);
    }
  }

  ghost predicate SlashReached(p: seq<Byte>, n: nat, t: seq<Byte>, s: nat, k: nat, q: nat, m: Mode)
    requires n < |p|
  {
    k <= q < |t| && s <= q && t[q] == SLASH && Glob(p, n + 1, t, q + 1, m)
  }

  // ---------------------------------------------------------------------------------------------
  // The recursion limit is hit exactly by what needs 64 levels.
  // ---------------------------------------------------------------------------------------------

  lemma {:induction false} WalkDepth(p: seq<Byte>, ps: nat, i: nat, t: seq<Byte>, j: nat, m: Mode, depth: nat)
    requires ps <= i <= |p| && j <= |t| && SliceStart(p, ps) && Steady(p, i, m) && depth < RECURSION_LIMIT
    ensures Walk(p, ps, i, t, j, m, depth) == Match ==> depth + Levels(p, i, m) < RECURSION_LIMIT
    decreases |p| - i, 2, 0
  {
    if i == |p| {
    } else if p[i] == STAR {
      if RunEnd(p, i) < |p| && Star(p, ps, i, t, j, m, depth) == Match { StarDepth(p, ps, i, t, j, m, depth); }
    } else if j < |t| {
      var s := Item(p, i, Fold(t[j], m), m);
      if s.Consume? && s.hit {
        SteadyNext(p, i, Fold(t[j], m), m);
        WalkDepth(p, ps, s.next, t, j + 1, m, depth);
      }
    }
  }

  lemma {:induction false} StarDepth(p: seq<Byte>, ps: nat, i: nat, t: seq<Byte>, j: nat, m: Mode, depth: nat)
    requires ps <= i < |p| && j <= |t| && SliceStart(p, ps) && p[i] == STAR && RunEnd(p, i) < |p|
    requires Steady(p, i, m) && depth < RECURSION_LIMIT && Star(p, ps, i, t, j, m, depth) == Match
    ensures depth + Levels(p, i, m) < RECURSION_LIMIT
    decreases |p| - i, 1, 1
  {
    var n := RunEnd(p, i);
    if !Crosses(p, i, m) && p[n] == SLASH {
      BehindSlashDepth(p, ps, i, t, FindSlash(t, j), m, depth);
    } else if Bounded(p, i, m) && Call(p, n + 1, t, j, m, depth + 1) == Match {
      OverDepth(p, i, t, j, m, depth);
    } else {
      SearchDepth(p, i, t, j, m, depth);
    }
  }

  lemma {:induction false} BehindSlashDepth(p: seq<Byte>, ps: nat, i: nat, t: seq<Byte>, s: nat, m: Mode, depth: nat)
    requires ps <= i < |p| && s < |t| && SliceStart(p, ps) && p[i] == STAR
    requires RunEnd(p, i) < |p| && p[RunEnd(p, i)] == SLASH && !Crosses(p, i, m)
    requires Steady(p, i, m) && depth < RECURSION_LIMIT && Walk(p, ps, RunEnd(p, i) + 1, t, s + 1, m, depth) == Match
    ensures depth + Levels(p, i, m) < RECURSION_LIMIT
    decreases |p| - i, 1, 0
  {
    SlashLevels(p, i, m);
    WalkDepth(p, ps, RunEnd(p, i) + 1, t, s + 1, m, depth);
  }

  lemma {:induction false} OverDepth(p: seq<Byte>, i: nat, t: seq<Byte>, j: nat, m: Mode, depth: nat)
    requires i < |p| && j <= |t| && p[i] == STAR && RunEnd(p, i) < |p| && Bounded(p, i, m) && depth < RECURSION_LIMIT
    requires Steady(p, i, m) && Call(p, RunEnd(p, i) + 1, t, j, m, depth + 1) == Match
    ensures depth + Levels(p, i, m) < RECURSION_LIMIT
    decreases |p| - i, 1, 0
  {
    SlashLevels(p, i, m);
    CallDepth(p, RunEnd(p, i) + 1, t, j, m, depth + 1);
  }

  lemma {:induction false} CallDepth(p: seq<Byte>, ps: nat, t: seq<Byte>, j: nat, m: Mode, depth: nat)
    requires ps <= |p| && j <= |t| && SliceStart(p, ps) && Steady(p, ps, m) && depth <= RECURSION_LIMIT
    requires Call(p, ps, t, j, m, depth) == Match
    ensures depth + Levels(p, ps, m) < RECURSION_LIMIT
    decreases |p| - ps, 3, 0
  {
    WalkDepth(p, ps, ps, t, j, m, depth);
  }

  lemma {:induction false} SearchDepth(p: seq<Byte>, i: nat, t: seq<Byte>, j: nat, m: Mode, depth: nat)
    requires i < |p| && j <= |t| && p[i] == STAR && RunEnd(p, i) < |p| && depth < RECURSION_LIMIT
    requires Crosses(p, i, m) || p[RunEnd(p, i)] != SLASH
    requires Steady(p, i, m) && Retry(p, RunEnd(p, i), t, j, Crosses(p, i, m), m, depth) == Match
    ensures depth + Levels(p, i, m) < RECURSION_LIMIT
    decreases |p| - i, 1, 0
  {
    SearchLevels(p, i, m);
    RetryDepth(p, RunEnd(p, i), t, j, Crosses(p, i, m), m, depth);
  }

  lemma {:induction false} RetryDepth(p: seq<Byte>, n: nat, t: seq<Byte>, k: nat, cross: bool, m: Mode, depth: nat)
    requires n < |p| && k <= |t| && p[n] != STAR && Steady(p, n, m) && depth < RECURSION_LIMIT
    ensures Retry(p, n, t, k, cross, m, depth) == Match ==> depth + 1 + Levels(p, n, m) < RECURSION_LIMIT
    decreases |p| - n, 4, |t| - k
  {
    var at := TryAt(p[n], t, k, cross, m);
    if at.Some? {
      var r := at.value;
      if Call(p, n, t, r, m, depth + 1) == Match {
        WalkDepth(p, n, n, t, r, m, depth + 1);
      } else if Retry(p, n, t, k, cross, m, depth) == Match {
        RetryDepth(p, n, t, r + 1, cross, m, depth);
      }
    }
  }

  // ---------------------------------------------------------------------------------------------
  // Which patterns are steady.
  // ---------------------------------------------------------------------------------------------

  /** Where an item ends, or how it fails to end, does not depend on the text byte it is tested against. */
  predicate SameShape(s: Step, u: Step) {
    if s.Consume? then u.Consume? && s.next == u.next else s == u
  }

  /** No escaped byte stands directly before a dash. */
  predicate NoEscapedRangeStart(p: seq<Byte>) {
    forall k :: 0 <= k < |p| - 2 && p[k] == BACKSLASH ==> p[k + 2] != DASH
  }

  /** No dash stands directly before `[:`. */
  predicate NoDashedClass(p: seq<Byte>) {
    forall k :: 0 <= k < |p| - 2 && p[k] == DASH && p[k + 1] == BRACKET_OPEN ==> p[k + 2] != COLON
  }

  /** A bracket expression behind one of its items, which ended at `k`. */
  ghost function Behind(p: seq<Byte>, k: nat, t: Byte, m: Mode, negated: bool, prev: Byte, matched: bool): Step {
    if k < |p| && p[k] == BRACKET_CLOSE then Consume(k + 1, matched != negated && !(m.path && t == SLASH))
    else Bracket(p, k, t, m, negated, prev, matched)
  }

  lemma BracketStep(p: seq<Byte>, k: nat, t: Byte, m: Mode, negated: bool, prev: Byte, matched: bool)
    requires k < |p|
    ensures Bracket(p, k, t, m, negated, prev, matched)
         == match NextItem(p, k, t, m, prev)
            case Broken => Malformed
            case Next(k', prev', hit) => Behind(p, k', t, m, negated, prev', matched || hit)
  {}

  lemma {:induction false} UnescapedSteady(p: seq<Byte>, k: nat, b: Byte, c: Byte, m: Mode, negated: bool,
                                           prevB: Byte, prevC: Byte, matchedB: bool, matchedC: bool)
    requires NoEscapedRangeStart(p)
    requires k < |p| && p[k] == DASH ==> (prevB == 0 <==> prevC == 0)
    ensures SameShape(Bracket(p, k, b, m, negated, prevB, matchedB), Bracket(p, k, c, m, negated, prevC, matchedC))
    decreases |p| - k
  {
    if k < |p| {
      var x, y := NextItem(p, k, b, m, prevB), NextItem(p, k, c, m, prevC);
      BracketStep(p, k, b, m, negated, prevB, matchedB);
      BracketStep(p, k, c, m, negated, prevC, matchedC);
      assert if x.Next? then y.Next? && x.k == y.k else x == y;
      if x.Next? {
        UnescapedSteady(p, x.k, b, c, m, negated, x.prev, y.prev, matchedB || x.hit, matchedC || y.hit);
      }
    }
  }

  /** For `b` the item is a range from `prevB`, for `c` it is a dash. */
  predicate Staggered(p: seq<Byte>, k: nat, x: BracketItem, y: BracketItem)
    requires k < |p|
  {
    && k + 1 < |p| && p[k] == DASH && p[k + 1] != BRACKET_CLOSE
    && (if p[k + 1] == BACKSLASH && k + 2 == |p| then x.Broken?
        else x.Next? && x.k == (if p[k + 1] == BACKSLASH then k + 3 else k + 2) && x.prev == 0)
    && y.Next? && y.k == k + 1
  }

  lemma ItemsCompare(p: seq<Byte>, k: nat, b: Byte, c: Byte, m: Mode, prevB: Byte, prevC: Byte)
    requires k < |p|
    ensures var x, y := NextItem(p, k, b, m, prevB), NextItem(p, k, c, m, prevC);
            || (if x.Next? then y.Next? && x.k == y.k else x == y)
            || Staggered(p, k, x, y) || Staggered(p, k, y, x)
  {}

  /** Two bytes that are at the same item find the same end, even if a dash is part of a range for only one of them. */
  lemma {:induction false} AlignedSteady(p: seq<Byte>, k: nat, b: Byte, c: Byte, m: Mode, negated: bool,
                                         prevB: Byte, prevC: Byte, matchedB: bool, matchedC: bool)
    requires NoDashedClass(p)
    ensures SameShape(Bracket(p, k, b, m, negated, prevB, matchedB), Bracket(p, k, c, m, negated, prevC, matchedC))
    decreases |p| - k, 2
  {
    if k < |p| {
      var x, y := NextItem(p, k, b, m, prevB), NextItem(p, k, c, m, prevC);
      ItemsCompare(p, k, b, c, m, prevB, prevC);
      BracketStep(p, k, b, m, negated, prevB, matchedB);
      BracketStep(p, k, c, m, negated, prevC, matchedC);
      if Staggered(p, k, x, y) {
        StaggeredSteady(p, k, x, b, c, m, negated, y.prev, matchedB, matchedC || y.hit);
      } else if Staggered(p, k, y, x) {
        StaggeredSteady(p, k, y, c, b, m, negated, x.prev, matchedC, matchedB || x.hit);
      } else if x.Next? {
        AlignedBehind(p, k, x.k, b, c, m, negated, x.prev, y.prev, matchedB || x.hit, matchedC || y.hit);
      }
    }
  }

  lemma {:induction false} AlignedBehind(p: seq<Byte>, from: nat, k: nat, b: Byte, c: Byte, m: Mode, negated: bool,
                                         prevB: Byte, prevC: Byte, matchedB: bool, matchedC: bool)
    requires NoDashedClass(p) && from < k <= |p|
    ensures SameShape(Behind(p, k, b, m, negated, prevB, matchedB), Behind(p, k, c, m, negated, prevC, matchedC))
    decreases |p| - from, 0
  {
    AlignedSteady(p, k, b, c, m, negated, prevB, prevC, matchedB, matchedC);
  }

  /** The dash at `k` began the range `x` for `b`, while `c` has taken the dash alone. */
  lemma {:induction false} StaggeredSteady(p: seq<Byte>, k: nat, x: BracketItem, b: Byte, c: Byte, m: Mode,
                                           negated: bool, prevC: Byte, matchedB: bool, matchedC: bool)
    requires NoDashedClass(p) && k < |p| && (x.Next? ==> x.k <= |p|) && Staggered(p, k, x, Next(k + 1, prevC, false))
    ensures SameShape(if x.Next? then Behind(p, x.k, b, m, negated, 0, matchedB || x.hit) else Malformed,
                      Behind(p, k + 1, c, m, negated, prevC, matchedC))
    decreases |p| - k, 1
  {
    var y := NextItem(p, k + 1, c, m, prevC);
    BracketStep(p, k + 1, c, m, negated, prevC, matchedC);
    if x.Next? {
      if y.Next? && y.k == x.k {
        AlignedBehind(p, k, x.k, b, c, m, negated, 0, y.prev, matchedB || x.hit, matchedC || y.hit);
      } else {
        assert Staggered(p, k + 1, y, Next(k + 2, 0, false));
        StaggeredSteady(p, k + 1, y, c, b, m, negated, 0, matchedC, matchedB || x.hit);
      }
    }
  }

  /** The pattern cannot be read in two ways, for one of two reasons that show in its text. */
  predicate PlainRanges(p: seq<Byte>) {
    NoEscapedRangeStart(p) || NoDashedClass(p)
  }

  lemma {:induction false} PlainRangesAreSteady(p: seq<Byte>, i: nat, m: Mode)
    requires PlainRanges(p) && i <= |p|
    ensures Steady(p, i, m)
    decreases |p| - i
  {
    if i < |p| && p[i] == STAR {
      PlainRangesAreSteady(p, RunEnd(p, i), m);
    } else if i < |p| {
      forall b: Byte, c: Byte
        ensures AgreeOn(p, i, b, c, m)
      {
        if p[i] == BRACKET_OPEN {
          var negated := i + 1 < |p| && (p[i + 1] == CARET || p[i + 1] == BANG);
          var k := if negated then i + 2 else i + 1;
          if NoDashedClass(p) {
            AlignedSteady(p, k, b, c, m, negated, 0, 0, false, false);
          } else {
            UnescapedSteady(p, k, b, c, m, negated, 0, 0, false, false);
          }
        }
      }
      forall b: Byte
        ensures SteadyBehind(p, i, b, m)
      {
        if Accepted(p, i, b, m) { PlainRangesAreSteady(p, Item(p, i, b, m).next, m); }
      }
    }
  }

  /** Pruning is safe: in front of the first `*` there is none, and behind it every item is steady. */
  predicate SafeToPrune(p: seq<Byte>, i: nat, m: Mode)
    decreases |p| - i, 1
  {
    if i >= |p| then true
    else if p[i] == STAR then Steady(p, i, m)
    else forall b :: 0 <= b < 256 ==> SafeBehind(p, i, b, m)
  }

  predicate SafeBehind(p: seq<Byte>, i: nat, b: Byte, m: Mode)
    requires i < |p| && p[i] != STAR
    decreases |p| - i, 0
  {
    Accepted(p, i, b, m) ==> SafeToPrune(p, Item(p, i, b, m).next, m)
  }

  lemma {:induction false} PlainRangesAreSafe(p: seq<Byte>, i: nat, m: Mode)
    requires (PlainRanges(p) || STAR !in p) && i <= |p|
    ensures SafeToPrune(p, i, m)
    decreases |p| - i
  {
    if i < |p| && p[i] == STAR {
      PlainRangesAreSteady(p, i, m);
    } else if i < |p| {
      forall b: Byte
        ensures SafeBehind(p, i, b, m)
      {
        if Accepted(p, i, b, m) { PlainRangesAreSafe(p, Item(p, i, b, m).next, m); }
      }
    }
  }

  // ---------------------------------------------------------------------------------------------
  // How much recursion there is.
  // ---------------------------------------------------------------------------------------------

  /** The levels of recursion for the text from `j`, whose bytes decide how items in front of the first `*` are read. */
  function Nesting(p: seq<Byte>, i: nat, t: seq<Byte>, j: nat, m: Mode): nat
    requires j <= |t|
    decreases |p| - i
  {
    if i < |p| && p[i] != STAR && j < |t| then
      var s := Item(p, i, Fold(t[j], m), m);
      if Accepts(s) then Nesting(p, s.next, t, j + 1, m) else 0
    else Levels(p, i, m)
  }

  /** The number of runs of `*` from `i` on. */
  function StarRuns(p: seq<Byte>, i: nat): nat
    decreases |p| - i
  {
    if i >= |p| then 0
    else (if p[i] == STAR && (i + 1 == |p| || p[i + 1] != STAR) then 1 else 0) + StarRuns(p, i + 1)
  }

  lemma {:induction false} StarRunsFall(p: seq<Byte>, i: nat, n: nat)
    requires i <= n
    ensures StarRuns(p, n) <= StarRuns(p, i)
    decreases n - i
  {
    if i < n { StarRunsFall(p, i + 1, n); }
  }

  lemma RunCounts(p: seq<Byte>, i: nat)
    requires i < |p| && p[i] == STAR
    ensures StarRuns(p, i) >= 1 + StarRuns(p, RunEnd(p, i))
  {
    StarRunsFall(p, i, RunEnd(p, i) - 1);
  }

  lemma {:induction false} LevelsBounded(p: seq<Byte>, i: nat, m: Mode)
    ensures Levels(p, i, m) <= StarRuns(p, i)
    decreases |p| - i
  {
    if i >= |p| {
    } else if p[i] == STAR {
      var n := RunEnd(p, i);
      RunCounts(p, i);
      if n < |p| && !Crosses(p, i, m) && p[n] == SLASH {
        StarRunsFall(p, n, n + 1);
        LevelsBounded(p, n + 1, m);
      } else {
        LevelsBounded(p, n, m);
      }
    } else {
      var b := FirstAccepted(p, i, 0, m);
      if b < 256 {
        var n := Item(p, i, b, m).next;
        StarRunsFall(p, i, n);
        LevelsBounded(p, n, m);
      }
    }
  }

  lemma {:induction false} NestingBounded(p: seq<Byte>, i: nat, t: seq<Byte>, j: nat, m: Mode)
    requires j <= |t|
    ensures Nesting(p, i, t, j, m) <= StarRuns(p, i)
    decreases |p| - i
  {
    LevelsBounded(p, i, m);
    if i < |p| && p[i] != STAR && j < |t| {
      var s := Item(p, i, Fold(t[j], m), m);
      if Accepts(s) {
        StarRunsFall(p, i, s.next);
        NestingBounded(p, s.next, t, j + 1, m);
      }
    }
  }

  // ---------------------------------------------------------------------------------------------
  // What the matcher decides.
  // ---------------------------------------------------------------------------------------------

  predicate Wild(p: seq<Byte>, t: seq<Byte>, m: Mode) {
    Call(p, 0, t, 0, m, 0) == Match
  }

  /** The matcher never accepts a text the glob does not describe. */
  lemma WildIsSound(p: seq<Byte>, t: seq<Byte>, m: Mode)
    requires Wild(p, t, m)
    ensures Glob(p, 0, t, 0, m)
  {
    WalkSound(p, 0, 0, t, 0, m, 0);
  }

  lemma {:induction false} WalkIsExact(p: seq<Byte>, i: nat, t: seq<Byte>, j: nat, m: Mode)
    requires i <= |p| && j <= |t| && SafeToPrune(p, i, m)
    ensures Walk(p, 0, i, t, j, m, 0) == Match <==> Glob(p, i, t, j, m) && Nesting(p, i, t, j, m) < RECURSION_LIMIT
    decreases |p| - i
  {
    if i == |p| {
    } else if p[i] == STAR {
      WalkSound(p, 0, i, t, j, m, 0);
      WalkDepth(p, 0, i, t, j, m, 0);
      if Levels(p, i, m) < RECURSION_LIMIT {
        WalkMeans(p, 0, i, t, j, m, 0);
        MeansHere(p, 0, i, t, j, m, Walk(p, 0, i, t, j, m, 0));
      }
    } else if j < |t| {
      var b := Fold(t[j], m);
      assert SafeBehind(p, i, b, m);
      if Accepted(p, i, b, m) { WalkIsExact(p, Item(p, i, b, m).next, t, j + 1, m); }
    }
  }

  /** Abort pruning loses no match: only a glob that needs 64 levels of recursion is refused. */
  lemma WildIsExact(p: seq<Byte>, t: seq<Byte>, m: Mode)
    requires SafeToPrune(p, 0, m)
    ensures Wild(p, t, m) <==> Glob(p, 0, t, 0, m) && Nesting(p, 0, t, 0, m) < RECURSION_LIMIT
    ensures StarRuns(p, 0) < RECURSION_LIMIT ==> (Wild(p, t, m) <==> Glob(p, 0, t, 0, m))
  {
    WalkIsExact(p, 0, t, 0, m);
    NestingBounded(p, 0, t, 0, m);
  }
}
