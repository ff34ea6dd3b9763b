/**
 * `gix-glob/src/wildmatch.rs` as its loops run. A `[:` that no `:]` closes restarts the pattern iterator, which then
 * counts from its new start, while the code goes on to use these counts as indices into the slice. This module keeps
 * that numbering and shows that it does not matter as long as no bracket restarts.
 */
module WildmatchLoops {
  import opened Bytes
  import opened Wildmatch
  import opened WildmatchLosses
  import opened Wrappers

  // ---------------------------------------------------------------------------------------------
  // The meaning of the loops. The slice starts at `ps`, the iterator counts from `base` and stands at `i` or `k`.
  // ---------------------------------------------------------------------------------------------

  datatype ScanItem = Stop | Restart(at: nat) | Go(k: nat, prev: Byte, hit: bool)

  /** One item of a bracket expression; `shift` is added to the index the iterator reports. */
  function ItemAt(p: seq<Byte>, ps: nat, base: nat, k: nat, shift: nat, t: Byte, m: Mode, prev: Byte): (r: ScanItem)
    requires ps <= base <= k < |p|
    ensures r.Go? ==> k < r.k <= |p|
    ensures r.Restart? ==> r.at == ps + (k - base) + shift <= |p|
  {
    if p[k] == BRACKET_OPEN && k + 1 < |p| && p[k + 1] == COLON then
      var close := FindClose(p, k + 2);
      var index, closing := k - base + shift, close - base;
      if close == |p| then Stop
      else if closing < index + 3 || p[ps + closing - 1] != COLON then
        if ps + index > |p| then Stop else Restart(ps + index)
      else
        var id := FindClass(p[ps + index + 2..ps + closing - 1], 0);
        if id == |CLASS_NAMES| then Stop else Go(close + 1, 0, InClass(id, t, m.fold))
    else
      match NextItem(p, k, t, m, prev)
      case Next(k', prev', hit) => Go(k', prev', hit)
      case _ => Stop
  }

  /** Where the scan of a bracket is: the iterator, what is added to its indices, and what has been read. */
  datatype Place = Place(base: nat, k: nat, shift: nat, prev: Byte, matched: bool)

  predicate Within(p: seq<Byte>, ps: nat, at: Place) {
    && ps <= at.base <= at.k && at.base <= |p| && at.shift <= 2 * |p| && (at.base < at.k || at.shift > 0)
  }

  /** Behind the item at a place, unless the bracket is malformed there. */
  function NextPlace(p: seq<Byte>, ps: nat, at: Place, t: Byte, m: Mode): (r: Option<Place>)
    requires Within(p, ps, at) && at.k < |p|
    ensures r.Some? ==>
              && Within(p, ps, r.value)
              && (r.value.shift > at.shift || (r.value.shift == at.shift && r.value.k > at.k))
  {
    match ItemAt(p, ps, at.base, at.k, at.shift, t, m, at.prev)
    case Stop => None
    case Restart(k) => Some(Place(k, k, at.shift + (k - ps), at.prev, at.matched || t == BRACKET_OPEN))
    case Go(k, prev, hit) => Some(Place(at.base, k, at.shift, prev, at.matched || hit))
  }

  datatype Scanned = Abort | Done(base: nat, next: nat, hit: bool)

  /** The bracket expression from a place on. */
  function Scan(p: seq<Byte>, ps: nat, at: Place, t: Byte, m: Mode, negated: bool): (r: Scanned)
    requires Within(p, ps, at)
    ensures r.Done? ==> ps <= r.base < r.next <= |p|
    decreases 2 * |p| - at.shift, |p| - at.k
  {
    if at.k >= |p| then Abort
    else
      match NextPlace(p, ps, at, t, m)
      case None => Abort
      case Some(n) =>
        if n.k < |p| && p[n.k] == BRACKET_CLOSE then Done(n.base, n.k + 1, Hits(t, m, negated, n.matched))
        else Scan(p, ps, n, t, m, negated)
  }

  predicate Hits(t: Byte, m: Mode, negated: bool, matched: bool) {
    matched != negated && !(m.path && t == SLASH)
  }

  predicate Negated(p: seq<Byte>, i: nat) {
    i + 1 < |p| && (p[i + 1] == CARET || p[i + 1] == BANG)
  }

  /** The item at `i`, which is not a `*`, and the start of the iterator behind it. */
  function StepAt(p: seq<Byte>, ps: nat, base: nat, i: nat, t: Byte, m: Mode): (r: Scanned)
    requires ps <= base <= i < |p| && p[i] != STAR
    ensures r.Done? ==> ps <= r.base < r.next <= |p|
  {
    if p[i] == BRACKET_OPEN then
      Scan(p, ps, Place(base, if Negated(p, i) then i + 2 else i + 1, 0, 0, false), t, m, Negated(p, i))
    else
      match Item(p, i, t, m)
      case Consume(next, hit) => Done(base, next, hit)
      case _ => Done(base, |p|, false)
  }

  /** A call of `match_recursive` on `pattern[ps..]` and `text[ts..]`. */
  function RunCall(p: seq<Byte>, ps: nat, t: seq<Byte>, ts: nat, m: Mode, depth: nat): MatchResult
    requires ps <= |p| && ts <= |t|
    decreases |p| - ps, |t| + 1, 0
  {
    if depth == RECURSION_LIMIT then RecursionLimitReached else Run(p, ps, ps, ps, t, ts, m, depth)
  }

  function Run(p: seq<Byte>, ps: nat, base: nat, i: nat, t: seq<Byte>, j: nat, m: Mode, depth: nat): MatchResult
    requires ps <= base <= i <= |p| && j <= |t|
    decreases |p| - ps, |t| - j, 1
  {
    if i == |p| then if j == |t| then Match else NoMatch
    else if p[i] == STAR then RunStar(p, ps, base, i, t, j, m, depth)
    else if j == |t| then AbortAll
    else
      match StepAt(p, ps, base, i, Fold(t[j], m), m)
      case Abort => AbortAll
      case Done(base', next, hit) => if hit then Run(p, ps, base', next, t, j + 1, m, depth) else NoMatch
  }

  /** Does `**` stand between slashes, where the byte before it is looked up by its index in the slice? */
  predicate RunBounded(p: seq<Byte>, ps: nat, base: nat, i: nat, m: Mode)
    requires ps <= base <= i < |p|
  {
    var n := RunEnd(p, i);
    && m.path && n >= i + 2
    && (i == base || p[ps + (i - base) - 1] == SLASH)
    && (n == |p| || p[n] == SLASH || (p[n] == BACKSLASH && n + 1 < |p| && p[n + 1] == SLASH))
  }

  function RunStar(p: seq<Byte>, ps: nat, base: nat, i: nat, t: seq<Byte>, j: nat, m: Mode, depth: nat): MatchResult
    requires ps <= base <= i < |p| && j <= |t|
    decreases |p| - ps, |t| - j, 0
  {
    var n := RunEnd(p, i);
    var at := ps + (n - base);
    var cross := !m.path || RunBounded(p, ps, base, i, m);
    if RunBounded(p, ps, base, i, m) && n < |p| && RunCall(p, at + 1, t, j, m, depth + 1) == Match then Match
    else if n == |p| then if !cross && FindSlash(t, j) < |t| then AbortToStarStar else Match
    else if !cross && p[n] == SLASH then
      var s := FindSlash(t, j);
      if s < |t| then Run(p, ps, base, n + 1, t, s + 1, m, depth) else AbortAll
    else RunRetry(p, at, p[n], t, j, cross, m, depth)
  }

  /** The retry loop of a `*` in front of the byte `first`, which recurses into the slice from `at`. */
  function RunRetry(p: seq<Byte>, at: nat, first: Byte, t: seq<Byte>, k: nat, cross: bool, m: Mode, depth: nat)
    : MatchResult
    requires at < |p| && k <= |t|
    decreases |p| - at, |t| + 2, |t| - k
  {
    match TryAt(first, t, k, cross, m)
    case None => Nowhere(cross)
    case Some(r) =>
      var after := AfterTry(RunCall(p, at, t, r, m, depth + 1), t, r, cross);
      if after.Some? then after.value else RunRetry(p, at, first, t, r + 1, cross, m, depth)
  }

  // ---------------------------------------------------------------------------------------------
  // Patterns that no bracket restarts.
  // ---------------------------------------------------------------------------------------------

  /** The `[:` at `k` is closed by a `:]` at the next `]`, or there is no `]` left. */
  predicate ClosedClass(p: seq<Byte>, k: nat)
    requires k + 2 <= |p|
  {
    var close := FindClose(p, k + 2);
    close == |p| || (close > k + 2 && p[close - 1] == COLON)
  }

  predicate Opens(p: seq<Byte>, k: nat) {
    k + 1 < |p| && p[k] == BRACKET_OPEN && p[k + 1] == COLON
  }

  /** The bracket from item `k` on comes to a `[:` that no `:]` closes. */
  predicate Restarts(p: seq<Byte>, k: nat, t: Byte, m: Mode, prev: Byte)
    decreases |p| - k
  {
    k < |p| && ((Opens(p, k) && !ClosedClass(p, k)) || RestartsBehind(p, k, t, m, NextItem(p, k, t, m, prev)))
  }

  predicate RestartsBehind(p: seq<Byte>, k: nat, t: Byte, m: Mode, item: BracketItem)
    requires k < |p| && (item.Next? ==> k < item.k <= |p|)
    decreases |p| - k, 0
  {
    item.Next? && !(item.k < |p| && p[item.k] == BRACKET_CLOSE) && Restarts(p, item.k, t, m, item.prev)
  }

  predicate RestartsAt(p: seq<Byte>, i: nat, t: Byte, m: Mode)
    requires i < |p|
  {
    p[i] == BRACKET_OPEN && Restarts(p, if Negated(p, i) then i + 2 else i + 1, t, m, 0)
  }

  /** No bracket the pattern can reach from `i` restarts. */
  predicate Clean(p: seq<Byte>, i: nat, m: Mode)
    decreases |p| - i, 1
  {
    if i >= |p| then true
    else if p[i] == STAR then Clean(p, RunEnd(p, i), m)
    else forall b :: 0 <= b < 256 ==> CleanBehind(p, i, b, m)
  }

  predicate CleanBehind(p: seq<Byte>, i: nat, b: Byte, m: Mode)
    requires i < |p| && p[i] != STAR
    decreases |p| - i, 0
  {
    && (Folded(b, m) ==> !RestartsAt(p, i, b, m))
    && (Accepted(p, i, b, m) ==> Clean(p, Item(p, i, b, m).next, m))
  }

  /** Every `[:` is closed by a `:]` at the next `]`, or there is no `]` left. */
  predicate ClosedClasses(p: seq<Byte>) {
    forall k :: 0 <= k < |p| && Opens(p, k) ==> ClosedClass(p, k)
  }

  lemma {:induction false} BracketClean(p: seq<Byte>, k: nat, t: Byte, m: Mode, prev: Byte)
    requires ClosedClasses(p)
    ensures !Restarts(p, k, t, m, prev)
    decreases |p| - k
  {
    if k < |p| {
      var x := NextItem(p, k, t, m, prev);
      if x.Next? { BracketClean(p, x.k, t, m, x.prev); }
    }
  }

  lemma {:induction false} ClosedClassesAreClean(p: seq<Byte>, i: nat, m: Mode)
    requires ClosedClasses(p) && i <= |p|
    ensures Clean(p, i, m)
    decreases |p| - i
  {
    if i < |p| && p[i] == STAR {
      ClosedClassesAreClean(p, RunEnd(p, i), m);
    } else if i < |p| {
      forall b: Byte
        ensures CleanBehind(p, i, b, m)
      {
        if p[i] == BRACKET_OPEN {
          BracketClean(p, if Negated(p, i) then i + 2 else i + 1, b, m, 0);
        }
        if Accepted(p, i, b, m) { ClosedClassesAreClean(p, Item(p, i, b, m).next, m); }
      }
    }
  }

  lemma CleanLiteral(p: seq<Byte>, i: nat, m: Mode)
    requires i < |p| && !IsGlobChar(p[i]) && Clean(p, i + 1, m)
    ensures Clean(p, i, m)
  {
    forall b: Byte
      ensures CleanBehind(p, i, b, m)
    {
      assert Item(p, i, b, m).next == i + 1;
    }
  }

  lemma CleanBehindSlash(p: seq<Byte>, n: nat, m: Mode)
    requires n < |p| && (p[n] == SLASH || (p[n] == BACKSLASH && n + 1 < |p| && p[n + 1] == SLASH)) && Clean(p, n, m)
    ensures Clean(p, n + 1, m)
  {
    assert Fold(SLASH, m) == SLASH;
    assert CleanBehind(p, n, SLASH, m) && Accepted(p, n, SLASH, m);
    if p[n] == BACKSLASH { CleanLiteral(p, n + 1, m); }
  }

  // ---------------------------------------------------------------------------------------------
  // Without a restart the loops compute the matcher.
  // ---------------------------------------------------------------------------------------------

  lemma {:induction false} ScanIsBracket(p: seq<Byte>, ps: nat, k: nat, t: Byte, m: Mode, negated: bool,
                                         prev: Byte, matched: bool)
    requires ps < k && ps <= |p| && !Restarts(p, k, t, m, prev)
    ensures Scan(p, ps, Place(ps, k, 0, prev, matched), t, m, negated)
         == match Bracket(p, k, t, m, negated, prev, matched)
            case Consume(next, hit) => Done(ps, next, hit)
            case _ => Abort
    decreases |p| - k
  {
    if k < |p| {
      var x := NextItem(p, k, t, m, prev);
      assert x.Next? ==> ItemAt(p, ps, ps, k, 0, t, m, prev) == Go(x.k, x.prev, x.hit);
      assert x.Broken? ==> ItemAt(p, ps, ps, k, 0, t, m, prev) == Stop;
      if x.Next? && !(x.k < |p| && p[x.k] == BRACKET_CLOSE) {
        ScanIsBracket(p, ps, x.k, t, m, negated, x.prev, matched || x.hit);
      }
    }
  }

  lemma StepIsItem(p: seq<Byte>, ps: nat, i: nat, t: Byte, m: Mode)
    requires ps <= i < |p| && p[i] != STAR && !RestartsAt(p, i, t, m)
    ensures StepAt(p, ps, ps, i, t, m)
         == match Item(p, i, t, m)
            case Consume(next, hit) => Done(ps, next, hit)
            case Dangling => Done(ps, |p|, false)
            case _ => Abort
  {
    if p[i] == BRACKET_OPEN {
      ScanIsBracket(p, ps, if Negated(p, i) then i + 2 else i + 1, t, m, Negated(p, i), 0, false);
    }
  }

  lemma {:induction false} RunIsWalk(p: seq<Byte>, ps: nat, i: nat, t: seq<Byte>, j: nat, m: Mode, depth: nat)
    requires ps <= i <= |p| && j <= |t| && Clean(p, i, m)
    ensures Run(p, ps, ps, i, t, j, m, depth) == Walk(p, ps, i, t, j, m, depth)
    decreases |p| - i, 2, 0
  {
    if i < |p| && p[i] == STAR {
      RunStarIsStar(p, ps, i, t, j, m, depth);
    } else if i < |p| && j < |t| {
      var b := Fold(t[j], m);
      assert CleanBehind(p, i, b, m);
      StepIsItem(p, ps, i, b, m);
      if Accepted(p, i, b, m) { RunIsWalk(p, ps, Item(p, i, b, m).next, t, j + 1, m, depth); }
    }
  }

  lemma {:induction false} RunStarIsStar(p: seq<Byte>, ps: nat, i: nat, t: seq<Byte>, j: nat, m: Mode, depth: nat)
    requires ps <= i < |p| && j <= |t| && p[i] == STAR && Clean(p, i, m)
    ensures RunStar(p, ps, ps, i, t, j, m, depth) == Star(p, ps, i, t, j, m, depth)
    decreases |p| - i, 1, 0
  {
    var n := RunEnd(p, i);
    if n < |p| {
      var bounded := RunBounded(p, ps, ps, i, m);
      if bounded || p[n] == SLASH { CleanBehindSlash(p, n, m); }
      if bounded { RunIsWalk(p, n + 1, n + 1, t, j, m, depth + 1); }
      if !bounded && p[n] == SLASH && FindSlash(t, j) < |t| {
        RunIsWalk(p, ps, n + 1, t, FindSlash(t, j) + 1, m, depth);
      }
      RunRetryIsRetry(p, n, t, j, !m.path || bounded, m, depth);
    }
  }

  lemma {:induction false} RunRetryIsRetry(p: seq<Byte>, n: nat, t: seq<Byte>, k: nat, cross: bool, m: Mode, depth: nat)
    requires n < |p| && k <= |t| && p[n] != STAR && Clean(p, n, m)
    ensures RunRetry(p, n, p[n], t, k, cross, m, depth) == Retry(p, n, t, k, cross, m, depth)
    decreases |p| - n, 4, |t| - k
  {
    var at := TryAt(p[n], t, k, cross, m);
    if at.Some? {
      RunIsWalk(p, n, n, t, at.value, m, depth + 1);
      assert RunCall(p, n, t, at.value, m, depth + 1) == Call(p, n, t, at.value, m, depth + 1);
      if at.value + 1 < |t| { RunRetryIsRetry(p, n, t, at.value + 1, cross, m, depth); }
    }
  }

  // ---------------------------------------------------------------------------------------------
  // The loops.
  // ---------------------------------------------------------------------------------------------

  /** The bracket expression that opens at `i`. */
  method ScanBracket(p: seq<Byte>, ps: nat, start: nat, i: nat, t: Byte, m: Mode) returns (r: Scanned)
    requires ps <= start <= i < |p| && p[i] == BRACKET_OPEN
    ensures r == StepAt(p, ps, start, i, t, m)
  {
    var negated := i + 1 < |p| && (p[i + 1] == CARET || p[i + 1] == BANG);
    r := ScanItems(p, ps, start, if negated then i + 2 else i + 1, t, m, negated);
  }

  method ScanItems(p: seq<Byte>, ps: nat, start: nat, first: nat, t: Byte, m: Mode, negated: bool) returns (r: Scanned)
    requires ps <= start < first && start <= |p|
    ensures r == Scan(p, ps, Place(start, first, 0, 0, false), t, m, negated)
  {
    var at := Place(start, first, 0, 0, false);
    while at.k < |p|
      invariant Within(p, ps, at)
      invariant Scan(p, ps, at, t, m, negated) == Scan(p, ps, Place(start, first, 0, 0, false), t, m, negated)
      decreases 2 * |p| - at.shift, |p| - at.k
    {
      var next := NextPlace(p, ps, at, t, m);
      if next.None? { return Abort; }
      at := next.value;
      if at.k < |p| && p[at.k] == BRACKET_CLOSE {
        return Done(at.base, at.k + 1, Hits(t, m, negated, at.matched));
      }
    }
    return Abort;
  }

  method MatchRecursive(p: seq<Byte>, ps: nat, t: seq<Byte>, ts: nat, m: Mode, depth: nat) returns (res: MatchResult)
    requires ps <= |p| && ts <= |t|
    ensures res == RunCall(p, ps, t, ts, m, depth)
    decreases |p| - ps, 1
  {
    if depth == RECURSION_LIMIT { return RecursionLimitReached; }
    var base: nat, i: nat, j: nat := ps, ps, ts;
    while i < |p|
      invariant ps <= base <= i <= |p| && j <= |t|
      invariant Run(p, ps, base, i, t, j, m, depth) == Run(p, ps, ps, ps, t, ts, m, depth)
      decreases |t| - j
    {
      if p[i] == STAR {
        var stop, r, i', j' := MatchStar(p, ps, base, i, t, j, m, depth);
        if stop { return r; }
        i, j := i', j';
      } else if j == |t| {
        return AbortAll;
      } else {
        var tch := Fold(t[j], m);
        if p[i] == BACKSLASH {
          if i + 1 == |p| || Fold(p[i + 1], m) != tch { return NoMatch; }
          i := i + 2;
        } else if p[i] == QUESTION {
          if m.path && tch == SLASH { return NoMatch; }
          i := i + 1;
        } else if p[i] == BRACKET_OPEN {
          var s := ScanBracket(p, ps, base, i, tch, m);
          if s.Abort? { return AbortAll; }
          if !s.hit { return NoMatch; }
          base, i := s.base, s.next;
        } else {
          if Fold(p[i], m) != tch { return NoMatch; }
          i := i + 1;
        }
        j := j + 1;
      }
    }
    return if j == |t| then Match else NoMatch;
  }

  /** The `*` arm: either the answer of the call, or the positions from which its loop continues. */
  method MatchStar(p: seq<Byte>, ps: nat, base: nat, i: nat, t: seq<Byte>, j: nat, m: Mode, depth: nat)
    returns (stop: bool, res: MatchResult, i': nat, j': nat)
    requires ps <= base <= i < |p| && j <= |t| && p[i] == STAR
    ensures stop ==> res == RunStar(p, ps, base, i, t, j, m, depth)
    ensures !stop ==>
              && i < i' <= |p| && j < j' <= |t|
              && RunStar(p, ps, base, i, t, j, m, depth) == Run(p, ps, base, i', t, j', m, depth)
    decreases |p| - ps, 0
  {
    var n := i + 1;
    while n < |p| && p[n] == STAR
      invariant i < n <= |p| && RunEnd(p, i) == RunEnd(p, n - 1)
    {
      n := n + 1;
    }
    stop, res, i', j' := true, Match, i, j;
    var matchSlash := !m.path;
    if n >= i + 2 && m.path
       && (i == base || p[ps + (i - base) - 1] == SLASH)
       && (n == |p| || p[n] == SLASH || (p[n] == BACKSLASH && n + 1 < |p| && p[n + 1] == SLASH)) {
      if n < |p| {
        var r := MatchRecursive(p, ps + (n - base) + 1, t, j, m, depth + 1);
        if r == Match { return; }
      }
      matchSlash := true;
    }
    if n == |p| {
      res := if !matchSlash && FindSlash(t, j) < |t| then AbortToStarStar else Match;
    } else if !matchSlash && p[n] == SLASH {
      var s := FindSlash(t, j);
      if s < |t| {
        stop, i', j' := false, n + 1, s + 1;
      } else {
        res := AbortAll;
      }
    } else {
      res := RetryLoop(p, ps + (n - base), p[n], t, j, matchSlash, m, depth);
    }
  }

  /** Advances to the literal `c`, to a slash that must not be crossed, or to the last byte. */
  method SkipTo(t: seq<Byte>, k: nat, c: Byte, matchSlash: bool, m: Mode) returns (r: nat, tch: Byte)
    requires k <= |t|
    ensures k <= r <= |t| && (k < |t| ==> r < |t|) && tch == TextByte(t, r, m)
    ensures Seek(t, k, c, matchSlash, m) == Seek(t, r, c, matchSlash, m)
    ensures (!matchSlash && tch == SLASH) || tch == c || r + 1 >= |t|
  {
    r, tch := k, TextByte(t, k, m);
    while !(!matchSlash && tch == SLASH) && tch != c && r + 1 < |t|
      invariant k <= r <= |t| && (k < |t| ==> r < |t|) && tch == TextByte(t, r, m)
      invariant Seek(t, k, c, matchSlash, m) == Seek(t, r, c, matchSlash, m)
      decreases |t| - r
    {
      r := r + 1;
      tch := Fold(t[r], m);
    }
  }

  /** The byte the text iterator is at, or 0 behind the text. */
  function TextByte(t: seq<Byte>, k: nat, m: Mode): Byte {
    if k < |t| then Fold(t[k], m) else 0
  }

  /** Where the loop tries the rest of the pattern, if anywhere. */
  method FindTry(first: Byte, t: seq<Byte>, k: nat, matchSlash: bool, m: Mode) returns (r: Option<nat>)
    requires k <= |t|
    ensures r == TryAt(first, t, k, matchSlash, m)
  {
    if IsGlobChar(first) { return Some(k); }
    var c := Fold(first, m);
    var at, tch := SkipTo(t, k, c, matchSlash, m);
    r := if tch != c then None else Some(at);
  }

  method RetryLoop(p: seq<Byte>, at: nat, first: Byte, t: seq<Byte>, j: nat, matchSlash: bool, m: Mode, depth: nat)
    returns (res: MatchResult)
    requires at < |p| && j <= |t|
    ensures res == RunRetry(p, at, first, t, j, matchSlash, m, depth)
    decreases |p| - at, 2
  {
    var k := j;
    while true
      invariant k <= |t|
      invariant RunRetry(p, at, first, t, k, matchSlash, m, depth) == RunRetry(p, at, first, t, j, matchSlash, m, depth)
      decreases |t| - k
    {
      var found := FindTry(first, t, k, matchSlash, m);
      if found.None? { return if matchSlash then AbortAll else AbortToStarStar; }
      var r := found.value;
      res := MatchRecursive(p, at, t, r, m, depth + 1);
      RoundIs(p, at, first, t, k, r, res, matchSlash, m, depth);
      if res != NoMatch {
        if !matchSlash || res != AbortToStarStar { return; }
      } else if !matchSlash && TextByte(t, r, m) == SLASH {
        return AbortToStarStar;
      }
      if r + 1 >= |t| { return AbortAll; }
      k := r + 1;
    }
  }

  /** What one round of the loop comes to. */
  lemma RoundIs(p: seq<Byte>, at: nat, first: Byte, t: seq<Byte>, k: nat, r: nat, res: MatchResult, cross: bool,
                m: Mode, depth: nat)
    requires at < |p| && k <= |t| && TryAt(first, t, k, cross, m) == Some(r)
    requires res == RunCall(p, at, t, r, m, depth + 1)
    ensures RunRetry(p, at, first, t, k, cross, m, depth)
         == if res != NoMatch && (!cross || res != AbortToStarStar) then res
            else if res == NoMatch && !cross && TextByte(t, r, m) == SLASH then AbortToStarStar
            else if r + 1 >= |t| then AbortAll
            else RunRetry(p, at, first, t, r + 1, cross, m, depth)
  {
    assert r < |t| ==> (Fold(t[r], m) == SLASH <==> t[r] == SLASH);
  }

  // ---------------------------------------------------------------------------------------------
  // The public entry point.
  // ---------------------------------------------------------------------------------------------

  predicate Accepting(p: seq<Byte>, t: seq<Byte>, m: Mode) {
    RunCall(p, 0, t, 0, m, 0) == Match
  }

  lemma AcceptingIsWild(p: seq<Byte>, t: seq<Byte>, m: Mode)
    requires Clean(p, 0, m)
    ensures Accepting(p, t, m) <==> Wild(p, t, m)
  {
    RunIsWalk(p, 0, 0, t, 0, m, 0);
  }

  method WildmatchText(p: seq<Byte>, t: seq<Byte>, m: Mode) returns (matches: bool)
    ensures matches == Accepting(p, t, m)
    ensures Clean(p, 0, m) && matches ==> Glob(p, 0, t, 0, m)
    ensures Clean(p, 0, m) && SafeToPrune(p, 0, m) ==>
              (matches <==> Glob(p, 0, t, 0, m) && Nesting(p, 0, t, 0, m) < RECURSION_LIMIT)
  {
    var res := MatchRecursive(p, 0, t, 0, m, 0);
    matches := res == Match;
    if Clean(p, 0, m) {
      AcceptingIsWild(p, t, m);
      if matches { WildIsSound(p, t, m); }
      if SafeToPrune(p, 0, m) { WildIsExact(p, t, m); }
    }
  }

  lemma LosingIsClean(p: seq<Byte>, m: Mode)
    requires IsLosing(p)
    ensures Clean(p, 0, m)
  {
    LosingCloses(p);
    ClosedClassesAreClean(p, 0, m);
  }

  lemma TwoReadingsIsClean(p: seq<Byte>, m: Mode)
    requires IsTwoReadings(p)
    ensures Clean(p, 0, m)
  {
    TwoReadingsClose(p);
    ClosedClassesAreClean(p, 0, m);
  }

  /** Both patterns that lose a match are closed, so the loops refuse the texts as well. */
  lemma LoopsLoseEscapedRange(m: Mode)
    requires m == Mode(false, false)
    ensures Glob(LOSING_PATTERN, 0, LOST_TEXT, 0, m) && !Accepting(LOSING_PATTERN, LOST_TEXT, m)
  {
    LoopsLoseRange(LOSING_PATTERN, LOST_TEXT, m);
  }

  lemma LoopsLoseTwoReadings(m: Mode)
    requires m == Mode(false, false)
    ensures Glob(TWO_READINGS, 0, [97, 98], 0, m) && !Accepting(TWO_READINGS, [97, 98], m)
  {
    LoopsLoseReading(TWO_READINGS, [97, 98], m);
  }

  lemma LoopsLoseRange(p: seq<Byte>, t: seq<Byte>, m: Mode)
    requires IsLosing(p) && |t| == 4 && t[0] == 97 && t[1] == 102 && t[2] == 120 && t[3] == 93
    requires m == Mode(false, false)
    ensures Glob(p, 0, t, 0, m) && !Accepting(p, t, m)
  {
    LosingIsClean(p, m);
    LosingLoses(p, t, m);
    AcceptingIsWild(p, t, m);
  }

  lemma LoopsLoseReading(p: seq<Byte>, t: seq<Byte>, m: Mode)
    requires IsTwoReadings(p) && |t| == 2 && t[0] == 97 && t[1] == 98 && m == Mode(false, false)
    ensures Glob(p, 0, t, 0, m) && !Accepting(p, t, m)
  {
    TwoReadingsIsClean(p, m);
    TwoReadingsLose(p, t, m);
    AcceptingIsWild(p, t, m);
  }

  // A restart reads the pattern from somewhere else: `xx[[:]yz]` should match `xx:yz]`, but it matches `xxy`.

  const RESTARTING: seq<Byte> := [120, 120, 91, 91, 58, 93, 121, 122, 93]

  predicate IsRestarting(p: seq<Byte>) {
    && |p| == 9 && p[0] == 120 && p[1] == 120 && p[2] == 91 && p[3] == 91 && p[4] == 58 && p[5] == 93
    && p[6] == 121 && p[7] == 122 && p[8] == 93
  }

  /** The bracket at 2 restarts at 3 twice and then at 6, where it reads the set `yz`. */
  lemma RestartingStep(p: seq<Byte>, b: Byte, m: Mode)
    requires IsRestarting(p) && m == Mode(false, false)
    ensures StepAt(p, 0, 0, 2, b, m) == Done(6, 9, b == 91 || b == 121 || b == 122)
  {
    var a := b == 91;
    assert FindClose(p, 5) == 5;
    var at0, at1, at2 := Place(0, 3, 0, 0, false), Place(3, 3, 3, 0, a), Place(3, 3, 6, 0, a);
    var at3, at4 := Place(6, 6, 12, 0, a), Place(6, 7, 12, 121, a || b == 121);
    assert NextPlace(p, 0, at0, b, m) == Some(at1);
    assert NextPlace(p, 0, at1, b, m) == Some(at2);
    assert NextPlace(p, 0, at2, b, m) == Some(at3);
    assert NextPlace(p, 0, at3, b, m) == Some(at4);
    assert NextPlace(p, 0, at4, b, m) == Some(Place(6, 8, 12, 122, a || b == 121 || b == 122));
    assert Scan(p, 0, at3, b, m, false) == Scan(p, 0, at4, b, m, false);
    assert Scan(p, 0, at1, b, m, false) == Scan(p, 0, at2, b, m, false) == Scan(p, 0, at3, b, m, false);
  }

  lemma RestartingRun(p: seq<Byte>, t: seq<Byte>, m: Mode)
    requires IsRestarting(p) && m == Mode(false, false) && |t| >= 3 && t[0] == t[1] == 120
    ensures Accepting(p, t, m) <==> |t| == 3 && (t[2] == 91 || t[2] == 121 || t[2] == 122)
  {
    RestartingStep(p, t[2], m);
    assert StepAt(p, 0, 0, 1, 120, m) == Done(0, 2, true);
    assert StepAt(p, 0, 0, 0, 120, m) == Done(0, 1, true);
    var hit := t[2] == 91 || t[2] == 121 || t[2] == 122;
    assert Run(p, 0, 6, 9, t, 3, m, 0) == if |t| == 3 then Match else NoMatch;
    assert Run(p, 0, 0, 2, t, 2, m, 0) == if hit then Run(p, 0, 6, 9, t, 3, m, 0) else NoMatch;
    assert Run(p, 0, 0, 1, t, 1, m, 0) == Run(p, 0, 0, 2, t, 2, m, 0);
    assert Run(p, 0, 0, 0, t, 0, m, 0) == Run(p, 0, 0, 1, t, 1, m, 0);
  }

  /** The bracket at 2 holds `[` and `:`, and `yz]` stands behind it. */
  lemma RestartingItem(p: seq<Byte>, b: Byte, m: Mode)
    requires IsRestarting(p) && m == Mode(false, false)
    ensures Item(p, 2, b, m) == Consume(6, b == 91 || b == 58) && RestartsAt(p, 2, b, m)
  {
    assert FindClose(p, 5) == 5 && Opens(p, 3) && !ClosedClass(p, 3);
    BracketGoes(p, 3, b, m, 0, false, 4, 91, b == 91);
    assert NextItem(p, 4, b, m, 91) == Next(5, 58, b == 58);
  }

  lemma RestartingGlob(p: seq<Byte>, t: seq<Byte>, m: Mode)
    requires IsRestarting(p) && m == Mode(false, false) && |t| >= 3 && t[0] == t[1] == 120
    ensures Glob(p, 0, t, 0, m) <==> (t[2] == 91 || t[2] == 58) && t[3..] == [121, 122, 93]
  {
    RestartingItem(p, t[2], m);
    if |t| > 5 { assert Glob(p, 8, t, 5, m) <==> |t| == 6 && t[5] == 93; }
    if |t| > 4 { assert Glob(p, 7, t, 4, m) <==> |t| == 6 && t[4] == 122 && t[5] == 93; }
    assert Glob(p, 6, t, 3, m) <==> t[3..] == [121, 122, 93];
    assert Glob(p, 1, t, 1, m) == Glob(p, 2, t, 2, m);
  }

  lemma RestartingIsNotClean(p: seq<Byte>, m: Mode)
    requires IsRestarting(p) && m == Mode(false, false)
    ensures !Clean(p, 0, m)
  {
    RestartingItem(p, 121, m);
    assert !CleanBehind(p, 2, 121, m);
    assert Accepted(p, 1, 120, m) && !CleanBehind(p, 1, 120, m);
    assert Accepted(p, 0, 120, m) && !CleanBehind(p, 0, 120, m);
  }

  /** So the condition that no bracket restarts is needed, both for what is accepted and for what is refused. */
  lemma RestartMisreads(m: Mode)
    requires m == Mode(false, false)
    ensures !Clean(RESTARTING, 0, m) && SafeToPrune(RESTARTING, 0, m)
    ensures Accepting(RESTARTING, [120, 120, 121], m) && !Glob(RESTARTING, 0, [120, 120, 121], 0, m)
    ensures var t := [120, 120, 58, 121, 122, 93]; !Accepting(RESTARTING, t, m) && Glob(RESTARTING, 0, t, 0, m)
  {
    var p := RESTARTING;
    RestartingRun(p, [120, 120, 121], m);
    RestartingGlob(p, [120, 120, 121], m);
    RestartingRun(p, [120, 120, 58, 121, 122, 93], m);
    RestartingGlob(p, [120, 120, 58, 121, 122, 93], m);
    PlainRangesAreSafe(p, 0, m);
    RestartingIsNotClean(p, m);
  }
}
