/**
 * `gix-glob/src/parse.rs` and `gix-glob/src/pattern.rs`: patterns parsed into a text with flags, and the
 * shortcuts those flags allow.
 */
module GlobPattern {
  import opened Bytes
  import opened Wildmatch
  import opened WildmatchLoops
  import opened Wrappers

  datatype Flags = Flags(noSubDir: bool, endsWith: bool, mustBeDir: bool, negative: bool, absolute: bool)

  datatype Pattern = Pattern(text: seq<Byte>, flags: Flags, firstWildcard: Option<nat>)

  const HASH: Byte := '#' as int

  predicate IsAsciiWhitespace(b: Byte) { b == 32 || b == 9 || b == 10 || b == 12 || b == 13 }

  /** The position of the first of `*?[\`. */
  function FirstWildcardPos(s: seq<Byte>): (r: Option<nat>)
    ensures r.Some? ==> r.value < |s| && IsGlobChar(s[r.value]) && forall k :: 0 <= k < r.value ==> !IsGlobChar(s[k])
    ensures r.None? ==> forall k :: 0 <= k < |s| ==> !IsGlobChar(s[k])
  {
    if s == [] then None
    else if IsGlobChar(s[0]) then Some(0)
    else match FirstWildcardPos(s[1..])
      case None => None
      case Some(k) => Some(k + 1)
  }

  /** What every parsed pattern satisfies, and all the shortcuts rely on. */
  predicate Parsed(pt: Pattern) {
    && pt.firstWildcard == FirstWildcardPos(pt.text)
    && (pt.flags.noSubDir <==> SLASH !in pt.text)
    && (pt.flags.endsWith <==> |pt.text| > 0 && pt.text[0] == STAR && FirstWildcardPos(pt.text[1..]).None?)
  }

  /** The `Display` form of a pattern. */
  function Render(pt: Pattern): seq<Byte> {
    (if pt.flags.negative then [BANG] else []) + (if pt.flags.absolute then [SLASH] else [])
    + pt.text + (if pt.flags.mustBeDir then [SLASH] else [])
  }

  /** A leading `\!` or `\#` loses its backslash when the parser may alter its input. */
  function Unescaped(s: seq<Byte>, mayAlter: bool): seq<Byte> {
    if mayAlter && |s| >= 2 && s[0] == BACKSLASH && (s[1] == BANG || s[1] == HASH) then s[1..] else s
  }

  predicate Blank(s: seq<Byte>) { forall k :: 0 <= k < |s| ==> IsAsciiWhitespace(s[k]) }

  /** Remove one leading and one trailing slash, if present. */
  method SplitSlashes(s: seq<Byte>) returns (absolute: bool, mustBeDir: bool, pat: seq<Byte>)
    ensures s == (if absolute then [SLASH] else []) + pat + (if mustBeDir then [SLASH] else [])
    ensures absolute <==> |s| > 0 && s[0] == SLASH
    ensures mustBeDir <==> |s| > (if absolute then 1 else 0) && s[|s| - 1] == SLASH
  {
    absolute, mustBeDir, pat := false, false, s;
    if pat != [] && pat[0] == SLASH {
      absolute, pat := true, pat[1..];
    }
    if pat != [] && pat[|pat| - 1] == SLASH {
      mustBeDir, pat := true, pat[..|pat| - 1];
    }
  }

  /** Take off a leading `!`, or the backslash in front of `!` or `#`, if the input may be altered. */
  method StripMarks(s: seq<Byte>, mayAlter: bool) returns (negative: bool, pat: seq<Byte>)
    ensures Blank(pat) <==> Blank(if mayAlter && |s| > 0 && s[0] == BANG then s[1..] else s)
    ensures Unescaped(s, mayAlter) == (if negative then [BANG] else []) + pat
    ensures negative <==> mayAlter && |s| > 0 && s[0] == BANG
  {
    pat, negative := s, false;
    if mayAlter && s != [] {
      if pat[0] == BANG {
        negative, pat := true, pat[1..];
      } else if pat[0] == BACKSLASH && |pat| >= 2 && (pat[1] == BANG || pat[1] == HASH) {
        assert !IsAsciiWhitespace(s[0]) && !IsAsciiWhitespace(s[1..][0]);
        pat := pat[1..];
      }
    }
  }

  /** Parsing splits the flags off the text and loses nothing else: rendering gives the input back. */
  method Parse(s: seq<Byte>, mayAlter: bool) returns (r: Option<Pattern>)
    ensures r.None? <==> Blank(if mayAlter && |s| > 0 && s[0] == BANG then s[1..] else s)
    ensures r.Some? ==> Parsed(r.value) && Render(r.value) == Unescaped(s, mayAlter)
    ensures r.Some? ==> (r.value.flags.negative <==> mayAlter && s[0] == BANG)
  {
    if s == [] { return None; }
    var negative, pat := StripMarks(s, mayAlter);
    if Blank(pat) { return None; }
    var absolute, mustBeDir, text := SplitSlashes(pat);
    var endsWith := text != [] && text[0] == STAR && FirstWildcardPos(text[1..]).None?;
    r := Some(Pattern(text, Flags(SLASH !in text, endsWith, mustBeDir, negative, absolute), FirstWildcardPos(text)));
    RenderParts(r.value, pat);
  }

  lemma RenderParts(pt: Pattern, pat: seq<Byte>)
    requires pat == (if pt.flags.absolute then [SLASH] else []) + pt.text + (if pt.flags.mustBeDir then [SLASH] else [])
    ensures Render(pt) == (if pt.flags.negative then [BANG] else []) + pat
  {}

  /** Byte-wise equality, ignoring ASCII case where the mode says so. */
  predicate EqualFolded(a: seq<Byte>, b: seq<Byte>, m: Mode) {
    |a| == |b| && forall k :: 0 <= k < |a| ==> Fold(a[k], m) == Fold(b[k], m)
  }

  /** `Pattern::matches` with its shortcuts. */
  predicate Matches(pt: Pattern, value: seq<Byte>, m: Mode)
    requires Parsed(pt)
  {
    match pt.firstWildcard
    case Some(pos) =>
      if pt.flags.endsWith && (!m.path || SLASH !in value) then
        var text := pt.text[pos + 1..];
        |text| <= |value| && EqualFolded(text, value[|value| - |text|..], m)
      else
        && pos <= |value| && EqualFolded(value[..pos], pt.text[..pos], m)
        && Accepting(pt.text, value, m)
    case None => EqualFolded(pt.text, value, m)
  }

  predicate Literal(p: seq<Byte>, i: nat, n: nat) {
    forall k :: i <= k < n && k < |p| ==> !IsGlobChar(p[k])
  }

  /** A literal stretch of the pattern is matched by itself. */
  lemma {:induction false} GlobOfPrefix(p: seq<Byte>, i: nat, n: nat, t: seq<Byte>, j: nat, m: Mode)
    requires i <= n <= |p| && j <= |t| && Literal(p, i, n)
    ensures Glob(p, i, t, j, m) <==>
              && j + n - i <= |t|
              && EqualFolded(p[i..n], t[j..j + n - i], m)
              && Glob(p, n, t, j + n - i, m)
    decreases n - i
  {
    if i < n && j < |t| {
      GlobOfPrefix(p, i + 1, n, t, j + 1, m);
      if j + n - i <= |t| {
        var a, b := p[i..n], t[j..j + n - i];
        assert a[0] == p[i] && b[0] == t[j] && a[1..] == p[i + 1..n] && b[1..] == t[j + 1..j + n - i];
        EqualFoldedHead(a, b, m);
      }
    }
  }

  lemma EqualFoldedHead(a: seq<Byte>, b: seq<Byte>, m: Mode)
    requires a != [] && b != []
    ensures EqualFolded(a, b, m) <==> Fold(a[0], m) == Fold(b[0], m) && EqualFolded(a[1..], b[1..], m)
  {
    if EqualFolded(a[1..], b[1..], m) {
      forall k | 1 <= k < |a|
        ensures Fold(a[k], m) == Fold(b[k], m)
      {
        assert a[1..][k - 1] == a[k] && b[1..][k - 1] == b[k];
      }
    }
  }

  /** What a run of the loops accepts begins with the literals of the pattern, whatever brackets follow. */
  lemma {:induction false} RunOfPrefix(p: seq<Byte>, i: nat, n: nat, t: seq<Byte>, j: nat, m: Mode, depth: nat)
    requires i <= n <= |p| && j <= |t| && Literal(p, i, n) && Run(p, 0, 0, i, t, j, m, depth) == Match
    ensures j + n - i <= |t| && forall k :: i <= k < n ==> Fold(p[k], m) == Fold(t[j + k - i], m)
    decreases n - i
  {
    if i < n { RunOfPrefix(p, i + 1, n, t, j + 1, m, depth); }
  }

  /** Patterns whose only glob character is a leading `*` are matched exactly. */
  lemma LiteralIsExact(p: seq<Byte>, t: seq<Byte>, m: Mode)
    requires Literal(p, 1, |p|) && (p != [] ==> p[0] == STAR || !IsGlobChar(p[0]))
    ensures Accepting(p, t, m) <==> Glob(p, 0, t, 0, m)
  {
    assert NoDashedClass(p) && ClosedClasses(p);
    PlainRangesAreSafe(p, 0, m);
    ClosedClassesAreClean(p, 0, m);
    StarRunsOfLiteral(p, 1);
    WildIsExact(p, t, m);
    AcceptingIsWild(p, t, m);
  }

  lemma {:induction false} StarRunsOfLiteral(p: seq<Byte>, i: nat)
    requires Literal(p, i, |p|)
    ensures StarRuns(p, i) == 0
    decreases |p| - i
  {
    if i < |p| { StarRunsOfLiteral(p, i + 1); }
  }

  lemma GlobOfSuffix(p: seq<Byte>, value: seq<Byte>, k: nat, m: Mode)
    requires p != [] && Literal(p, 1, |p|) && k <= |value|
    ensures Glob(p, 1, value, k, m) <==> k + |p| - 1 == |value| && EqualFolded(p[1..], value[k..], m)
  {
    GlobOfPrefix(p, 1, |p|, value, k, m);
    assert p[1..|p|] == p[1..];
    assert k + |p| - 1 == |value| ==> value[k..k + (|p| - 1)] == value[k..];
  }

  /** What a single `*` matches is followed by what the rest matches. */
  lemma StarLeads(p: seq<Byte>, i: nat, value: seq<Byte>, j: nat, m: Mode) returns (k: nat)
    requires i < |p| && j <= |value| && p[i] == STAR && (i + 1 < |p| ==> p[i + 1] != STAR) && Glob(p, i, value, j, m)
    ensures j <= k <= |value| && Glob(p, i + 1, value, k, m)
  {
    assert RunEnd(p, i) == i + 1;
    if i + 1 == |p| {
      k := |value|;
    } else {
      k := StarDescends(p, 0, i, value, j, j, m);
    }
  }

  /** In a value without a slash, the rest may match anywhere. */
  lemma StarSkips(p: seq<Byte>, i: nat, value: seq<Byte>, j: nat, k: nat, m: Mode)
    requires i < |p| && j <= k <= |value| && p[i] == STAR && (i + 1 < |p| ==> p[i + 1] != STAR)
          && (!m.path || SLASH !in value)
    requires Glob(p, i + 1, value, k, m)
    ensures Glob(p, i, value, j, m)
  {
    assert RunEnd(p, i) == i + 1;
    assert Crosses(p, i, m) || SlashFree(value, j, k);
  }

  lemma SuffixShortcut(pt: Pattern, value: seq<Byte>, m: Mode)
    requires Parsed(pt) && pt.flags.endsWith && (!m.path || SLASH !in value)
    ensures Matches(pt, value, m) <==> Accepting(pt.text, value, m)
  {
    var p, n := pt.text, |pt.text| - 1;
    assert Literal(p, 1, |p|) by { assert forall k :: 1 <= k < |p| ==> p[k] == p[1..][k - 1]; }
    LiteralIsExact(p, value, m);
    if Glob(p, 0, value, 0, m) {
      var k := StarLeads(p, 0, value, 0, m);
      GlobOfSuffix(p, value, k, m);
    }
    if n <= |value| {
      GlobOfSuffix(p, value, |value| - n, m);
      if Matches(pt, value, m) { StarSkips(p, 0, value, 0, |value| - n, m); }
    }
  }

  /** The suffix, prefix and equality shortcuts answer as the matcher on the full text does. */
  lemma MatchesIsAccepting(pt: Pattern, value: seq<Byte>, m: Mode)
    requires Parsed(pt)
    ensures Matches(pt, value, m) <==> Accepting(pt.text, value, m)
  {
    var p := pt.text;
    match pt.firstWildcard
    case None =>
      GlobOfPrefix(p, 0, |p|, value, 0, m);
      LiteralIsExact(p, value, m);
      assert p[0..|p|] == p && value[0..|value|] == value;
    case Some(pos) =>
      if pt.flags.endsWith && (!m.path || SLASH !in value) {
        SuffixShortcut(pt, value, m);
      } else if Accepting(p, value, m) {
        RunOfPrefix(p, 0, pos, value, 0, m, 0);
      }
  }
}
