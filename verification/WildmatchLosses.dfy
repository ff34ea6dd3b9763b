/**
 * Where the pruning of `gix-glob/src/wildmatch.rs` loses a match. The escape arm of a bracket expression makes the way
 * it is read depend on the text byte, which breaks the promise of an abort: a reading that aborts for one byte says
 * nothing about that of another.
 */
module WildmatchLosses {
  import opened Bytes
  import opened Wildmatch

  /** A single `*` in front of a bracket. */
  predicate StarBracket(p: seq<Byte>) {
    |p| > 1 && p[0] == STAR && p[1] == BRACKET_OPEN
  }

  /** If the bracket behind a leading `*` leads to an abort at the first byte, a match at a later one is lost. */
  lemma AbortLosesMatch(p: seq<Byte>, t: seq<Byte>, k: nat, m: Mode)
    requires StarBracket(p) && t != [] && k <= |t| && !m.path
    requires Walk(p, 1, 1, t, 0, m, 1) == AbortAll && Glob(p, 1, t, k, m)
    ensures Glob(p, 0, t, 0, m) && !Wild(p, t, m)
  {
    assert RunEnd(p, 0) == 1;
    assert Call(p, 1, t, 0, m, 1) == AbortAll;
    assert Retry(p, 1, t, 0, true, m, 0) == AbortAll;
    assert Walk(p, 0, 0, t, 0, m, 0) == Star(p, 0, 0, t, 0, m, 0) == AbortAll;
    assert Call(p, 0, t, 0, m, 0) == AbortAll;
  }

  /** It is so if the bracket is malformed for the first byte, ... */
  lemma MalformedReadingLoses(p: seq<Byte>, t: seq<Byte>, k: nat, m: Mode)
    requires StarBracket(p) && t != [] && k <= |t| && !m.path
    requires Item(p, 1, Fold(t[0], m), m).Malformed? && Glob(p, 1, t, k, m)
    ensures Glob(p, 0, t, 0, m) && !Wild(p, t, m)
  {
    AbortLosesMatch(p, t, k, m);
  }

  /** ... or if it accepts the first byte, the rest of the text follows it literally, and then something is missing. */
  lemma ShortReadingLoses(p: seq<Byte>, t: seq<Byte>, k: nat, e: nat, m: Mode)
    requires StarBracket(p) && t != [] && k <= |t| && !m.path
    requires Item(p, 1, Fold(t[0], m), m) == Consume(e, true) && e + |t| <= |p| && p[e + |t| - 1] != STAR
    requires Follows(p, e, t, 1, m) && Glob(p, 1, t, k, m)
    ensures Glob(p, 0, t, 0, m) && !Wild(p, t, m)
  {
    WalkRunsOut(p, e, t, 1, m, 1);
    AbortLosesMatch(p, t, k, m);
  }

  /** The literal text of the pattern from `e` on begins with the text from `j` on. */
  predicate Follows(p: seq<Byte>, e: nat, t: seq<Byte>, j: nat, m: Mode) {
    && j <= |t| && e + (|t| - j) <= |p|
    && forall x :: e <= x < e + (|t| - j) ==> !IsGlobChar(p[x]) && Fold(p[x], m) == Fold(t[x - e + j], m)
  }

  lemma {:induction false} WalkRunsOut(p: seq<Byte>, e: nat, t: seq<Byte>, j: nat, m: Mode, depth: nat)
    requires e > 0 && Follows(p, e, t, j, m) && e + (|t| - j) < |p| && p[e + (|t| - j)] != STAR
    ensures Walk(p, 1, e, t, j, m, depth) == AbortAll
    decreases |t| - j
  {
    if j < |t| {
      assert !IsGlobChar(p[e]) && Fold(p[e], m) == Fold(t[j], m);
      WalkRunsOut(p, e + 1, t, j + 1, m, depth);
    }
  }

  // ---------------------------------------------------------------------------------------------
  // A class of patterns for which pruning is exact only if it is safe.
  // ---------------------------------------------------------------------------------------------

  /** Matching looks only at what is left of the text. */
  lemma {:induction false} GlobMoves(p: seq<Byte>, i: nat, t: seq<Byte>, j: nat, u: seq<Byte>, d: nat, m: Mode)
    requires i <= |p| && j <= |t| && j + d <= |u| && t[j..] == u[j + d..] && Glob(p, i, t, j, m)
    ensures Glob(p, i, u, j + d, m)
    decreases |p| - i
  {
    assert forall x :: j <= x < |t| ==> t[x] == t[j..][x - j] == u[x + d];
    if i == |p| {
    } else if p[i] == STAR {
      var n := RunEnd(p, i);
      if Bounded(p, i, m) && n < |p| && Glob(p, n + 1, t, j, m) {
        GlobMoves(p, n + 1, t, j, u, d, m);
      } else {
        var k :| j <= k <= |t| && (Crosses(p, i, m) || SlashFree(t, j, k)) && Glob(p, n, t, k, m);
        assert t[k..] == u[k + d..];
        GlobMoves(p, n, t, k, u, d, m);
        assert SlashFree(t, j, k) ==> SlashFree(u, j + d, k + d) by {
          if SlashFree(t, j, k) {
            assert forall x :: j + d <= x < k + d && x < |u| ==> u[x] == t[x - d];
          }
        }
      }
    } else {
      assert t[j + 1..] == u[j + 1 + d..];
      GlobMoves(p, Item(p, i, Fold(t[j], m), m).next, t, j + 1, u, d, m);
    }
  }

  /** The bracket at 1 ends at `e` for all bytes it accepts. */
  predicate OneEnd(p: seq<Byte>, e: nat, m: Mode)
    requires StarBracket(p)
  {
    forall b :: 0 <= b < 256 && Accepted(p, 1, b, m) ==> Item(p, 1, b, m).next == e
  }

  lemma MalformedLosesSome(p: seq<Byte>, e: nat, s: seq<Byte>, b: Byte, c: Byte, m: Mode)
    requires StarBracket(p) && e <= |p| && OneEnd(p, e, m) && !m.path && Glob(p, e, s, 0, m)
    requires Folded(b, m) && Item(p, 1, b, m).Malformed? && Accepted(p, 1, c, m)
    ensures Glob(p, 0, [b, c] + s, 0, m) && !Wild(p, [b, c] + s, m)
  {
    var t := [b, c] + s;
    GlobMoves(p, e, s, 0, t, 2, m);
    assert Glob(p, 1, t, 1, m);
    MalformedReadingLoses(p, t, 1, m);
  }

  lemma SomeAreMalformed(p: seq<Byte>, e: nat, m: Mode) returns (b: Byte, c: Byte)
    requires StarBracket(p) && e <= |p| && OneEnd(p, e, m) && Steady(p, e, m) && !SafeToPrune(p, 0, m)
    ensures Folded(b, m) && Item(p, 1, b, m).Malformed? && Accepted(p, 1, c, m)
  {
    assert RunEnd(p, 0) == 1 && !Steady(p, 1, m);
    forall x: Byte
      ensures SteadyBehind(p, 1, x, m)
    {
    }
    assert !SteadyItem(p, 1, m);
    b, c :| 0 <= b < 256 && 0 <= c < 256 && !AgreeOn(p, 1, b, c, m);
    if Accepted(p, 1, b, m) { b, c := c, b; }
    assert Accepted(p, 1, b, m) && Accepted(p, 1, c, m) ==> Item(p, 1, b, m).next == Item(p, 1, c, m).next;
  }

  /** If all readings that accept a byte end in the same place, no match is lost if and only if pruning is safe. */
  lemma OneEndIsExact(p: seq<Byte>, e: nat, s: seq<Byte>, m: Mode)
    requires StarBracket(p) && e <= |p| && OneEnd(p, e, m) && !m.path && StarRuns(p, 0) < RECURSION_LIMIT
    requires Steady(p, e, m) && Glob(p, e, s, 0, m)
    ensures (forall t :: Wild(p, t, m) <==> Glob(p, 0, t, 0, m)) <==> SafeToPrune(p, 0, m)
  {
    if SafeToPrune(p, 0, m) {
      forall t
        ensures Wild(p, t, m) <==> Glob(p, 0, t, 0, m)
      {
        WildIsExact(p, t, m);
      }
    } else {
      var b, c := SomeAreMalformed(p, e, m);
      MalformedLosesSome(p, e, s, b, c, m);
    }
  }

  // ---------------------------------------------------------------------------------------------
  // Two patterns that lose a match. `*[\a-[:foo:]x]` should match `afx]`, but for `a` the class is unknown.
  // ---------------------------------------------------------------------------------------------

  const LOSING_PATTERN: seq<Byte> := [42, 91, 92, 97, 45, 91, 58, 102, 111, 111, 58, 93, 120, 93]
  const LOST_TEXT: seq<Byte> := [97, 102, 120, 93]

  predicate IsLosing(p: seq<Byte>) {
    && |p| == 14 && p[0] == 42 && p[1] == 91 && p[2] == 92 && p[3] == 97 && p[4] == 45 && p[5] == 91 && p[6] == 58
    && p[7] == 102 && p[8] == 111 && p[9] == 111 && p[10] == 58 && p[11] == 93 && p[12] == 120 && p[13] == 93
  }

  lemma LosingCloses(p: seq<Byte>)
    requires IsLosing(p)
    ensures FindClose(p, 7) == 11
  {
    assert FindClose(p, 11) == 11;
    assert FindClose(p, 9) == 11;
  }

  lemma UnknownClass(name: seq<int>, i: nat)
    requires |name| == 3 && i <= |CLASS_NAMES|
    ensures FindClass(name, i) == |CLASS_NAMES|
    decreases |CLASS_NAMES| - i
  {
    if i < |CLASS_NAMES| { assert |Ascii(CLASS_NAMES[i])| >= 5; }
  }

  /** One item of a bracket, behind which it goes on. */
  lemma BracketGoes(p: seq<Byte>, k: nat, t: Byte, m: Mode, prev: Byte, matched: bool, k': nat, prev': Byte, hit: bool)
    requires k < |p| && k' < |p| && p[k'] != BRACKET_CLOSE && NextItem(p, k, t, m, prev) == Next(k', prev', hit)
    ensures Bracket(p, k, t, m, false, prev, matched) == Bracket(p, k', t, m, false, prev', matched || hit)
  {
  }

  /** The items `:foo:` up to the closing bracket, with nothing left to be a range. */
  lemma LosingTail(p: seq<Byte>, b: Byte, matched: bool, m: Mode)
    requires IsLosing(p) && !m.fold && !m.path
    ensures Bracket(p, 6, b, m, false, 0, matched) == Consume(12, matched || b == 58 || b == 102 || b == 111)
  {
    var x, y := matched || b == 58, matched || b == 58 || b == 102;
    BracketGoes(p, 6, b, m, 0, matched, 7, 58, b == 58);
    BracketGoes(p, 7, b, m, 58, x, 8, 102, b == 102);
    BracketGoes(p, 8, b, m, 102, y, 9, 111, b == 111);
    BracketGoes(p, 9, b, m, 111, y || b == 111, 10, 111, b == 111);
    assert NextItem(p, 10, b, m, 111) == Next(11, 58, b == 58);
  }

  lemma LosingItem(p: seq<Byte>, b: Byte, m: Mode)
    requires IsLosing(p) && !m.fold && !m.path
    ensures Item(p, 1, b, m) == if b == 97 then Malformed else Consume(12, b == 58 || b == 102 || b == 111)
  {
    if b == 97 {
      LosingCloses(p);
      UnknownClass(p[7..10], 0);
      BracketGoes(p, 2, b, m, 0, false, 4, 0, true);
      BracketGoes(p, 4, b, m, 0, true, 5, 45, false);
      assert NextItem(p, 5, b, m, 45) == Broken;
    } else {
      BracketGoes(p, 2, b, m, 0, false, 4, 97, false);
      BracketGoes(p, 4, b, m, 97, false, 6, 0, false);
      LosingTail(p, b, false, m);
    }
  }

  lemma EscapedRangeLosesMatch(m: Mode)
    requires m == Mode(false, false)
    ensures Glob(LOSING_PATTERN, 0, LOST_TEXT, 0, m) && !Wild(LOSING_PATTERN, LOST_TEXT, m)
  {
    LosingLoses(LOSING_PATTERN, LOST_TEXT, m);
  }

  lemma LosingLoses(p: seq<Byte>, t: seq<Byte>, m: Mode)
    requires IsLosing(p) && |t| == 4 && t[0] == 97 && t[1] == 102 && t[2] == 120 && t[3] == 93
    requires m == Mode(false, false)
    ensures Glob(p, 0, t, 0, m) && !Wild(p, t, m)
  {
    LosingItem(p, 97, m);
    LosingItem(p, 102, m);
    assert Glob(p, 13, t, 3, m);
    assert Glob(p, 12, t, 2, m);
    MalformedReadingLoses(p, t, 1, m);
  }

  // Here both readings are well formed: `*[\b-[:alpha:]b]` should match `ab`. For `a`, the range `b-[` and the
  // bytes `:alpha:` make the set, and `b]` has to follow; for `b`, the class `[:alpha:]` and the byte `b` make it.

  const TWO_READINGS: seq<Byte> := [42, 91, 92, 98, 45, 91, 58, 97, 108, 112, 104, 97, 58, 93, 98, 93]

  predicate IsTwoReadings(p: seq<Byte>) {
    && |p| == 16 && p[0] == 42 && p[1] == 91 && p[2] == 92 && p[3] == 98 && p[4] == 45 && p[5] == 91 && p[6] == 58
    && p[7] == 97 && p[8] == 108 && p[9] == 112 && p[10] == 104 && p[11] == 97 && p[12] == 58 && p[13] == 93
    && p[14] == 98 && p[15] == 93
  }

  lemma TwoReadingsClose(p: seq<Byte>)
    requires IsTwoReadings(p)
    ensures FindClose(p, 7) == 13
  {
    assert FindClose(p, 13) == 13;
    assert FindClose(p, 11) == 13;
    assert FindClose(p, 9) == 13;
  }

  lemma AlphaClass(name: seq<int>)
    requires name == [97, 108, 112, 104, 97]
    ensures FindClass(name, 0) == 1
  {
    assert |Ascii("alnum")| == 5 && Ascii("alnum")[2] == 110;
    assert Ascii("alpha") == [97, 108, 112, 104, 97];
  }

  lemma ReadingOfA(p: seq<Byte>, m: Mode)
    requires IsTwoReadings(p) && m == Mode(false, false)
    ensures Item(p, 1, 97, m) == Consume(14, true)
  {
    BracketGoes(p, 2, 97, m, 0, false, 4, 98, false);
    BracketGoes(p, 4, 97, m, 98, false, 6, 0, false);
    BracketGoes(p, 6, 97, m, 0, false, 7, 58, false);
    BracketGoes(p, 7, 97, m, 58, false, 8, 97, true);
    AlphaTail(p, m);
  }

  lemma AlphaTail(p: seq<Byte>, m: Mode)
    requires IsTwoReadings(p) && m == Mode(false, false)
    ensures Bracket(p, 8, 97, m, false, 97, true) == Consume(14, true)
  {
    BracketGoes(p, 8, 97, m, 97, true, 9, 108, false);
    BracketGoes(p, 9, 97, m, 108, true, 10, 112, false);
    BracketGoes(p, 10, 97, m, 112, true, 11, 104, false);
    BracketGoes(p, 11, 97, m, 104, true, 12, 97, true);
    assert NextItem(p, 12, 97, m, 97) == Next(13, 58, false);
  }

  lemma ReadingOfB(p: seq<Byte>, m: Mode)
    requires IsTwoReadings(p) && m == Mode(false, false)
    ensures Item(p, 1, 98, m) == Consume(16, true)
  {
    TwoReadingsClose(p);
    AlphaClass(p[7..12]);
    BracketGoes(p, 2, 98, m, 0, false, 4, 0, true);
    BracketGoes(p, 4, 98, m, 0, true, 5, 45, false);
    BracketGoes(p, 5, 98, m, 45, true, 14, 0, true);
    assert NextItem(p, 14, 98, m, 0) == Next(15, 98, true);
  }

  lemma TwoReadingsLoseMatch(m: Mode)
    requires m == Mode(false, false)
    ensures Glob(TWO_READINGS, 0, [97, 98], 0, m) && !Wild(TWO_READINGS, [97, 98], m)
  {
    TwoReadingsLose(TWO_READINGS, [97, 98], m);
  }

  lemma TwoReadingsLose(p: seq<Byte>, t: seq<Byte>, m: Mode)
    requires IsTwoReadings(p) && |t| == 2 && t[0] == 97 && t[1] == 98 && m == Mode(false, false)
    ensures Glob(p, 0, t, 0, m) && !Wild(p, t, m)
  {
    ReadingOfA(p, m);
    ReadingOfB(p, m);
    assert Glob(p, 16, t, 2, m);
    ShortReadingLoses(p, t, 1, 14, m);
  }
}
