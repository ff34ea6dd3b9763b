/**
 * `gix-command/src/parse.rs`: splitting a command line into words by the quoting rules of the POSIX shell.
 *
 * A command line is a sequence of units such as quoted strings, escaped bytes and blanks. Its words are defined
 * over these units, and the byte-wise parser is shown to find the only units a text can consist of.
 */
module ShellWords {
  import opened Sequences
  import opened Wrappers

  datatype Error = MissingClosingQuote | MissingEscapedByte | MissingCommand

  /** `separator` is the place of the `=` in a word that is an assignment. */
  datatype Word = Word(value: string, separator: Option<nat>)

  predicate IsBlank(c: char) { c == ' ' || c == '\t' || c == '\n' }
  predicate NameStart(c: char) { c == '_' || 'a' <= c <= 'z' || 'A' <= c <= 'Z' }
  predicate NameByte(c: char) { NameStart(c) || '0' <= c <= '9' }
  predicate IsSpecial(c: char) { c == '$' || c == '`' || c == '"' || c == '\\' }

  // -------------------------------------------------------------------------------------------------
  // The units a command line is built from.
  // -------------------------------------------------------------------------------------------------

  /** What may stand between double quotes. */
  datatype Part = Plain(c: char) | Special(c: char) | Kept(c: char) | Joined

  datatype Unit =
    | Blank(c: char)
    | Comment(text: string)
    | Bare(c: char)
    | Escaped(c: char)
    | Continued
    | SingleQuoted(text: string)
    | DoubleQuoted(parts: seq<Part>)

  predicate PartOk(p: Part) {
    match p
    case Plain(c) => c != '"' && c != '\\'
    case Special(c) => IsSpecial(c)
    case Kept(c) => c != '\n' && !IsSpecial(c)
    case Joined => true
  }

  function PartText(p: Part): string {
    match p
    case Plain(c) => [c]
    case Special(c) => ['\\', c]
    case Kept(c) => ['\\', c]
    case Joined => ['\\', '\n']
  }

  function PartValue(p: Part): string {
    match p
    case Plain(c) => [c]
    case Special(c) => [c]
    case Kept(c) => ['\\', c]
    case Joined => []
  }

  /** The text of the first `n` parts. */
  function PartsText(parts: seq<Part>, n: nat): string
    requires n <= |parts|
  {
    if n == 0 then [] else PartsText(parts, n - 1) + PartText(parts[n - 1])
  }

  function PartsValue(parts: seq<Part>, n: nat): string
    requires n <= |parts|
  {
    if n == 0 then [] else PartsValue(parts, n - 1) + PartValue(parts[n - 1])
  }

  predicate PartsOk(parts: seq<Part>) {
    forall k :: 0 <= k < |parts| ==> PartOk(parts[k])
  }

  /** Whether a unit may stand where a word has started or has not. */
  predicate UnitOk(u: Unit, started: bool) {
    match u
    case Blank(c) => IsBlank(c)
    case Comment(text) => !started && '\n' !in text
    case Bare(c) => !IsBlank(c) && c != '\'' && c != '"' && c != '\\' && (started || c != '#')
    case Escaped(c) => c != '\n'
    case Continued => true
    case SingleQuoted(text) => '\'' !in text
    case DoubleQuoted(parts) => PartsOk(parts)
  }

  function UnitText(u: Unit): (t: string)
    ensures t != []
  {
    match u
    case Blank(c) => [c]
    case Comment(text) => Enclosed('#', text, '\n')
    case Bare(c) => [c]
    case Escaped(c) => ['\\', c]
    case Continued => ['\\', '\n']
    case SingleQuoted(text) => Enclosed('\'', text, '\'')
    case DoubleQuoted(parts) => Enclosed('"', PartsText(parts, |parts|), '"')
  }

  function Enclosed(open: char, text: string, close: char): string {
    [open] + text + [close]
  }

  predicate StartsWord(u: Unit) {
    !u.Blank? && !u.Comment? && !u.Continued?
  }

  /** What a unit adds to the word it is part of. */
  function UnitValue(u: Unit): string {
    match u
    case Bare(c) => [c]
    case Escaped(c) => [c]
    case SingleQuoted(text) => text
    case DoubleQuoted(parts) => PartsValue(parts, |parts|)
    case _ => []
  }

  function Text(units: seq<Unit>, n: nat): string
    requires n <= |units|
  {
    if n == 0 then [] else Text(units, n - 1) + UnitText(units[n - 1])
  }

  /** Whether a word has started behind the first `n` units and not ended yet. */
  predicate Started(units: seq<Unit>, n: nat)
    requires n <= |units|
  {
    n > 0 && !units[n - 1].Blank? && (StartsWord(units[n - 1]) || Started(units, n - 1))
  }

  predicate UnitsOk(units: seq<Unit>) {
    forall k :: 0 <= k < |units| ==> UnitOk(units[k], Started(units, k))
  }

  /** A whole command line; the last line may hold a comment that no newline ends. */
  datatype Line = Line(units: seq<Unit>, tail: Option<string>)

  predicate LineOk(line: Line) {
    UnitsOk(line.units) && (line.tail.Some? ==> !Started(line.units, |line.units|) && '\n' !in line.tail.value)
  }

  function TailText(line: Line): string {
    if line.tail.Some? then ['#'] + line.tail.value else []
  }

  function LineText(line: Line): string {
    Text(line.units, |line.units|) + TailText(line)
  }

  // -------------------------------------------------------------------------------------------------
  // What a command line means.
  // -------------------------------------------------------------------------------------------------

  function Value(word: seq<Unit>, n: nat): string
    requires n <= |word|
  {
    if n == 0 then [] else Value(word, n - 1) + UnitValue(word[n - 1])
  }

  /** The empty text or a shell identifier. */
  predicate NamePrefix(v: string) {
    v == [] || (NameStart(v[0]) && forall k :: 0 <= k < |v| ==> NameByte(v[k]))
  }

  /** The first `n` units are all unquoted and spell a shell identifier so far. */
  predicate Naming(word: seq<Unit>, n: nat)
    requires n <= |word|
  {
    (forall k :: 0 <= k < n ==> word[k].Bare? || word[k].Continued?) && NamePrefix(Value(word, n))
  }

  /** An unquoted `=` that follows an unquoted shell identifier. */
  predicate AssignsAt(word: seq<Unit>, n: nat)
    requires n < |word|
  {
    word[n] == Bare('=') && Naming(word, n) && Value(word, n) != []
  }

  /** The place of the `=` among the first `n` units of a word. */
  function Separator(word: seq<Unit>, n: nat): Option<nat>
    requires n <= |word|
  {
    if n == 0 then None
    else if Separator(word, n - 1).Some? then Separator(word, n - 1)
    else if AssignsAt(word, n - 1) then Some(|Value(word, n - 1)|)
    else None
  }

  function WordOf(word: seq<Unit>): Word {
    Word(Value(word, |word|), Separator(word, |word|))
  }

  /** The units behind the last blank or comment. */
  function Current(units: seq<Unit>, n: nat): seq<Unit>
    requires n <= |units|
  {
    if n == 0 || units[n - 1].Blank? || units[n - 1].Comment? then []
    else Current(units, n - 1) + [units[n - 1]]
  }

  /** The words that a blank has ended. */
  function Ended(units: seq<Unit>, n: nat): seq<Word>
    requires n <= |units|
  {
    if n == 0 then []
    else if units[n - 1].Blank? && Started(units, n - 1) then Ended(units, n - 1) + [WordOf(Current(units, n - 1))]
    else Ended(units, n - 1)
  }

  function Words(units: seq<Unit>): seq<Word> {
    var n := |units|;
    Ended(units, n) + if Started(units, n) then [WordOf(Current(units, n))] else []
  }

  // -------------------------------------------------------------------------------------------------
  // A text has at most one reading.
  // -------------------------------------------------------------------------------------------------

  lemma HasSame(s: string, k: nat, a: string, b: string)
    requires Has(s, k, a) && Has(s, k, b) && |a| == |b|
    ensures a == b
  {
    assert forall x :: 0 <= x < |a| ==> a[x] == b[x];
  }

  lemma HasEnclosed(s: string, k: nat, open: char, text: string, close: char)
    ensures Has(s, k, Enclosed(open, text, close)) <==>
            Has(s, k + 1, text) && k + 1 + |text| < |s| && s[k] == open && s[k + 1 + |text|] == close
  {
    assert Enclosed(open, text, close) == [open] + (text + [close]);
    HasJoin(s, k, [open], text + [close]);
    HasJoin(s, k + 1, text, [close]);
    HasOne(s, k, open);
    HasOne(s, k + 1 + |text|, close);
  }

  lemma NoneWithin(s: string, k: nat, t: string, c: char)
    requires Has(s, k, t) && c !in t
    ensures forall e :: k <= e < k + |t| ==> s[e] != c
  {
    forall e | k <= e < k + |t| ensures s[e] != c {
      assert t[e - k] == s[e];
    }
  }

  /** A text free of `close` that is followed by it ends in only one place. */
  lemma ClosedSame(s: string, k: nat, a: string, b: string, close: char)
    requires Has(s, k, a) && k + |a| < |s| && s[k + |a|] == close && close !in a
    requires Has(s, k, b) && k + |b| < |s| && s[k + |b|] == close && close !in b
    ensures a == b
  {
    NoneWithin(s, k, a, close);
    NoneWithin(s, k, b, close);
    HasSame(s, k, a, b);
  }

  /** Where the `n`-th part starts. */
  function PartStart(k: nat, parts: seq<Part>, n: nat): nat
    requires n <= |parts|
  {
    if n == 0 then k else PartStart(k, parts, n - 1) + if parts[n - 1].Plain? then 1 else 2
  }

  predicate PartHere(s: string, k: nat, p: Part) {
    match p
    case Plain(c) => k < |s| && s[k] == c
    case Special(c) => k + 1 < |s| && s[k] == '\\' && s[k + 1] == c
    case Kept(c) => k + 1 < |s| && s[k] == '\\' && s[k + 1] == c
    case Joined => k + 1 < |s| && s[k] == '\\' && s[k + 1] == '\n'
  }

  /** The first `n` parts stand one behind the other from `k` on. */
  predicate Stands(s: string, k: nat, parts: seq<Part>, n: nat)
    requires n <= |parts|
  {
    n == 0 || (Stands(s, k, parts, n - 1) && PartHere(s, PartStart(k, parts, n - 1), parts[n - 1]))
  }

  lemma PartHas(s: string, k: nat, p: Part)
    requires Has(s, k, PartText(p))
    ensures PartHere(s, k, p)
  {
    assert PartText(p)[0] == s[k];
    if !p.Plain? { assert PartText(p)[1] == s[k + 1]; }
  }

  lemma {:induction false} PartStartIs(k: nat, parts: seq<Part>, n: nat)
    requires n <= |parts|
    ensures PartStart(k, parts, n) == k + |PartsText(parts, n)|
  {
    if n > 0 { PartStartIs(k, parts, n - 1); }
  }

  lemma {:induction false} StandsText(s: string, k: nat, parts: seq<Part>, n: nat)
    requires n <= |parts| && Has(s, k, PartsText(parts, n))
    ensures Stands(s, k, parts, n)
  {
    if n > 0 {
      HasJoin(s, k, PartsText(parts, n - 1), PartText(parts[n - 1]));
      StandsText(s, k, parts, n - 1);
      PartStartIs(k, parts, n - 1);
      PartHas(s, PartStart(k, parts, n - 1), parts[n - 1]);
    }
  }

  lemma {:induction false} PartAt(s: string, k: nat, parts: seq<Part>, i: nat, n: nat)
    requires i < n <= |parts| && Stands(s, k, parts, n)
    ensures PartHere(s, PartStart(k, parts, i), parts[i])
  {
    if i < n - 1 { PartAt(s, k, parts, i, n - 1); }
  }

  lemma PartSame(s: string, k: nat, p: Part, q: Part)
    requires PartOk(p) && PartOk(q) && PartHere(s, k, p) && PartHere(s, k, q)
    ensures p == q
  {
  }

  /** The first `n` parts are the same. */
  predicate SameParts(a: seq<Part>, b: seq<Part>, n: nat) {
    n <= |a| && n <= |b| && forall x :: 0 <= x < n ==> a[x] == b[x]
  }

  lemma {:induction false} PartStartSame(k: nat, a: seq<Part>, b: seq<Part>, n: nat)
    requires SameParts(a, b, n)
    ensures PartStart(k, a, n) == PartStart(k, b, n)
  {
    if n > 0 { PartStartSame(k, a, b, n - 1); }
  }

  /** The parts at `k` are followed by a closing quote. */
  predicate Closes(s: string, k: nat, parts: seq<Part>) {
    var n := |parts|;
    PartsOk(parts) && Stands(s, k, parts, n) && PartStart(k, parts, n) < |s| && s[PartStart(k, parts, n)] == '"'
  }

  lemma PartsNext(s: string, k: nat, parts: seq<Part>, closed: seq<Part>, n: nat)
    requires PartsOk(parts) && Stands(s, k, parts, |parts|) && Closes(s, k, closed)
    requires n < |parts| && SameParts(parts, closed, n)
    ensures SameParts(parts, closed, n + 1)
  {
    PartAt(s, k, parts, n, |parts|);
    PartStartSame(k, parts, closed, n);
    assert PartOk(parts[n]);
    assert n != |closed|;
    PartAt(s, k, closed, n, |closed|);
    PartSame(s, PartStart(k, parts, n), parts[n], closed[n]);
  }

  /** Where parts are followed by a closing quote, other parts that stand there cannot reach beyond it. */
  lemma {:induction false} PartsWithin(s: string, k: nat, parts: seq<Part>, closed: seq<Part>, n: nat)
    requires PartsOk(parts) && Stands(s, k, parts, |parts|) && Closes(s, k, closed) && n <= |parts|
    ensures SameParts(parts, closed, n)
  {
    if n > 0 {
      PartsWithin(s, k, parts, closed, n - 1);
      PartsNext(s, k, parts, closed, n - 1);
    }
  }

  lemma QuotedCloses(s: string, k: nat, parts: seq<Part>)
    requires PartsOk(parts) && Has(s, k, UnitText(DoubleQuoted(parts)))
    ensures Closes(s, k + 1, parts)
  {
    HasEnclosed(s, k, '"', PartsText(parts, |parts|), '"');
    StandsText(s, k + 1, parts, |parts|);
    PartStartIs(k + 1, parts, |parts|);
  }

  lemma DoubleSame(s: string, k: nat, a: seq<Part>, b: seq<Part>)
    requires PartsOk(a) && Has(s, k, UnitText(DoubleQuoted(a)))
    requires PartsOk(b) && Has(s, k, UnitText(DoubleQuoted(b)))
    ensures a == b
  {
    QuotedCloses(s, k, a);
    QuotedCloses(s, k, b);
    PartsWithin(s, k + 1, a, b, |a|);
    PartsWithin(s, k + 1, b, a, |b|);
  }

  lemma UnitHead(u: Unit)
    ensures match u
      case Blank(c) => UnitText(u)[0] == c
      case Bare(c) => UnitText(u)[0] == c
      case Comment(_) => UnitText(u)[0] == '#'
      case SingleQuoted(_) => UnitText(u)[0] == '\''
      case DoubleQuoted(_) => UnitText(u)[0] == '"'
      case Escaped(c) => UnitText(u) == ['\\', c]
      case Continued => UnitText(u) == ['\\', '\n']
  {
  }

  /** The text at a place begins with at most one unit. */
  lemma UnitSame(s: string, k: nat, u: Unit, v: Unit, started: bool)
    requires UnitOk(u, started) && UnitOk(v, started) && Has(s, k, UnitText(u)) && Has(s, k, UnitText(v))
    ensures u == v
  {
    UnitHead(u);
    UnitHead(v);
    assert UnitText(u)[0] == s[k] == UnitText(v)[0];
    match u
    case Comment(a) =>
      HasEnclosed(s, k, '#', a, '\n');
      HasEnclosed(s, k, '#', v.text, '\n');
      ClosedSame(s, k + 1, a, v.text, '\n');
    case SingleQuoted(a) =>
      HasEnclosed(s, k, '\'', a, '\'');
      HasEnclosed(s, k, '\'', v.text, '\'');
      ClosedSame(s, k + 1, a, v.text, '\'');
    case DoubleQuoted(a) => DoubleSame(s, k, a, v.parts);
    case Escaped(_) => assert UnitText(u)[1] == s[k + 1] == UnitText(v)[1];
    case Continued => assert UnitText(u)[1] == s[k + 1] == UnitText(v)[1];
    case _ =>
  }

  lemma {:induction false} UnitAt(s: string, units: seq<Unit>, i: nat, n: nat)
    requires i < n <= |units| && Has(s, 0, Text(units, n))
    ensures Has(s, |Text(units, i)|, UnitText(units[i]))
  {
    HasJoin(s, 0, Text(units, n - 1), UnitText(units[n - 1]));
    if i < n - 1 { UnitAt(s, units, i, n - 1); }
  }

  /** The units can be read off the beginning of the text. */
  predicate Reads(s: string, units: seq<Unit>) {
    UnitsOk(units) && Has(s, 0, Text(units, |units|))
  }

  predicate SameUnits(a: seq<Unit>, b: seq<Unit>, n: nat) {
    n <= |a| && n <= |b| && forall x :: 0 <= x < n ==> a[x] == b[x]
  }

  lemma {:induction false} StartedSame(a: seq<Unit>, b: seq<Unit>, n: nat)
    requires SameUnits(a, b, n)
    ensures Started(a, n) == Started(b, n) && Text(a, n) == Text(b, n)
  {
    if n > 0 { StartedSame(a, b, n - 1); }
  }

  lemma ReadsNext(s: string, a: seq<Unit>, b: seq<Unit>, n: nat)
    requires Reads(s, a) && Reads(s, b) && n < |a| && n < |b| && SameUnits(a, b, n)
    ensures SameUnits(a, b, n + 1)
  {
    StartedSame(a, b, n);
    UnitAt(s, a, n, |a|);
    UnitAt(s, b, n, |b|);
    UnitSame(s, |Text(a, n)|, a[n], b[n], Started(a, n));
  }

  /** Two readings agree as far as both go. */
  lemma {:induction false} ReadsSame(s: string, a: seq<Unit>, b: seq<Unit>, n: nat)
    requires Reads(s, a) && Reads(s, b) && n <= |a| && n <= |b|
    ensures SameUnits(a, b, n)
  {
    if n > 0 {
      ReadsSame(s, a, b, n - 1);
      ReadsNext(s, a, b, n - 1);
    }
  }

  lemma BeginsWith(t: string, rest: string)
    ensures Has(t + rest, 0, t)
  {
  }

  lemma CommentFollows(t: string, c: string)
    requires '\n' !in c
    ensures var s := t + (['#'] + c);
      s[|t|] == '#' && s[|t| + 1..] == c && forall x :: |t| <= x < |s| ==> s[x] != '\n'
  {
    var s := t + (['#'] + c);
    assert forall x :: |t| < x < |s| ==> s[x] == c[x - |t| - 1];
    assert s[|t| + 1..] == c;
  }

  /** What follows the units of a line: nothing, or a comment without a newline. */
  lemma LineEnds(line: Line)
    requires LineOk(line)
    ensures Reads(LineText(line), line.units)
    ensures var s, p := LineText(line), |Text(line.units, |line.units|)|;
      if line.tail.None? then p == |s|
      else p < |s| && s[p] == '#' && (forall x :: p <= x < |s| ==> s[x] != '\n') && s[p + 1..] == line.tail.value
  {
    var t := Text(line.units, |line.units|);
    BeginsWith(t, TailText(line));
    if line.tail.Some? { CommentFollows(t, line.tail.value); }
  }

  /** A line has no fewer units than can be read off its text. */
  lemma LineCovers(line: Line, units: seq<Unit>)
    requires LineOk(line) && Reads(LineText(line), units)
    ensures |units| <= |line.units|
  {
    var s, n := LineText(line), |line.units|;
    LineEnds(line);
    if n < |units| {
      ReadsSame(s, line.units, units, n);
      StartedSame(line.units, units, n);
      UnitAt(s, units, n, |units|);
      NoUnitAtEnd(s, |Text(units, n)|, units[n], Started(units, n));
    }
  }

  lemma NoUnitAtEnd(s: string, p: nat, u: Unit, started: bool)
    requires UnitOk(u, started) && Has(s, p, UnitText(u))
    ensures s[p] == '#' && !started ==> exists x :: p <= x < |s| && s[x] == '\n'
  {
    UnitHead(u);
    assert UnitText(u)[0] == s[p];
    if u.Comment? { HasEnclosed(s, p, '#', u.text, '\n'); }
  }

  lemma SameTail(a: Line, b: Line)
    requires a.units == b.units && LineText(a) == LineText(b)
    ensures a == b
  {
    var t := Text(a.units, |a.units|);
    assert LineText(a)[|t|..] == TailText(a) && LineText(b)[|t|..] == TailText(b);
    assert a.tail.Some? ==> TailText(a)[1..] == a.tail.value;
    assert b.tail.Some? ==> TailText(b)[1..] == b.tail.value;
  }

  lemma SameLength(a: Line, b: Line)
    requires LineOk(a) && LineOk(b) && LineText(a) == LineText(b)
    ensures |a.units| == |b.units|
  {
    LineEnds(a);
    LineEnds(b);
    LineCovers(a, b.units);
    LineCovers(b, a.units);
  }

  /** Every text is the text of at most one line. */
  lemma Unambiguous(a: Line, b: Line)
    requires LineOk(a) && LineOk(b) && LineText(a) == LineText(b)
    ensures a == b
  {
    SameLength(a, b);
    LineEnds(a);
    LineEnds(b);
    ReadsSame(LineText(a), a.units, b.units, |a.units|);
    SameTail(a, b);
  }

  // -------------------------------------------------------------------------------------------------
  // The state of the parser between units.
  // -------------------------------------------------------------------------------------------------

  /** The words so far, and the word being read with its two flags and the place of its separator. */
  datatype State = State(words: seq<Word>, value: string, possible: bool, separator: Option<nat>, started: bool)

  const START := State([], [], true, None, false)

  function Pushed(st: State, c: char): State {
    var looking := st.separator.None? && st.possible;
    st.(value := st.value + [c],
        started := true,
        separator := if looking && st.value != [] && c == '=' then Some(|st.value|) else st.separator,
        possible := if !looking then st.possible
                    else if st.value == [] then NameStart(c)
                    else c == '=' || NameByte(c))
  }

  function Quoted(st: State, text: string): State {
    st.(value := st.value + text, possible := false, started := true)
  }

  function EndWord(st: State): State {
    if st.started then START.(words := st.words + [Word(st.value, st.separator)]) else st
  }

  function After(st: State, u: Unit): State {
    match u
    case Blank(_) => EndWord(st)
    case Comment(_) => st
    case Continued => st
    case Bare(c) => Pushed(st, c)
    case _ => Quoted(st, UnitValue(u))
  }

  /** The state describes the word made of the given units. */
  predicate TracksWord(word: seq<Unit>, st: State) {
    var n := |word|;
    && st.value == Value(word, n) && st.separator == Separator(word, n)
    && (st.separator.None? ==> st.possible == Naming(word, n))
  }

  predicate Tracks(units: seq<Unit>, st: State) {
    var n := |units|;
    st.words == Ended(units, n) && st.started == Started(units, n) && TracksWord(Current(units, n), st)
  }

  lemma {:induction false} WordPrefix(word: seq<Unit>, u: Unit, n: nat)
    requires n <= |word|
    ensures Value(word + [u], n) == Value(word, n) && Separator(word + [u], n) == Separator(word, n)
    ensures Naming(word + [u], n) == Naming(word, n)
  {
    assert forall k :: 0 <= k < |word| ==> (word + [u])[k] == word[k];
    if n > 0 { WordPrefix(word, u, n - 1); }
  }

  lemma {:induction false} UnitsPrefix(units: seq<Unit>, u: Unit, n: nat)
    requires n <= |units|
    ensures Started(units + [u], n) == Started(units, n) && Text(units + [u], n) == Text(units, n)
    ensures Current(units + [u], n) == Current(units, n) && Ended(units + [u], n) == Ended(units, n)
  {
    if n > 0 { UnitsPrefix(units, u, n - 1); }
  }

  /** A value that grows stays the beginning of a name exactly if what is added fits. */
  lemma NameGrows(v: string, c: char)
    ensures NamePrefix(v + [c]) <==> NamePrefix(v) && if v == [] then NameStart(c) else NameByte(c)
  {
    var w := v + [c];
    assert w[|v|] == c;
    assert forall k :: 0 <= k < |v| ==> w[k] == v[k];
  }

  lemma WordContinues(word: seq<Unit>, st: State)
    requires TracksWord(word, st)
    ensures TracksWord(word + [Continued], st)
  {
    WordPrefix(word, Continued, |word|);
    assert st.value + [] == st.value;
  }

  lemma WordQuoted(word: seq<Unit>, st: State, u: Unit)
    requires TracksWord(word, st) && (u.Escaped? || u.SingleQuoted? || u.DoubleQuoted?)
    ensures TracksWord(word + [u], Quoted(st, UnitValue(u)))
  {
    WordPrefix(word, u, |word|);
  }

  lemma BareNaming(word: seq<Unit>, c: char)
    ensures Value(word + [Bare(c)], |word| + 1) == Value(word, |word|) + [c]
    ensures Naming(word + [Bare(c)], |word| + 1) <==>
            Naming(word, |word|) && if Value(word, |word|) == [] then NameStart(c) else NameByte(c)
  {
    var w := word + [Bare(c)];
    WordPrefix(word, Bare(c), |word|);
    NameGrows(Value(word, |word|), c);
    assert w[|word|] == Bare(c);
    assert forall k :: 0 <= k < |word| ==> w[k] == word[k];
  }

  lemma BareSeparator(word: seq<Unit>, c: char)
    ensures Separator(word + [Bare(c)], |word| + 1) ==
            if Separator(word, |word|).Some? then Separator(word, |word|)
            else if c == '=' && Naming(word, |word|) && Value(word, |word|) != [] then Some(|Value(word, |word|)|)
            else None
  {
    WordPrefix(word, Bare(c), |word|);
    assert (word + [Bare(c)])[|word|] == Bare(c);
  }

  lemma WordBare(word: seq<Unit>, st: State, c: char)
    requires TracksWord(word, st)
    ensures TracksWord(word + [Bare(c)], Pushed(st, c))
  {
    BareNaming(word, c);
    BareSeparator(word, c);
  }

  /** Before a word starts there are only continued lines. */
  lemma {:induction false} Unstarted(units: seq<Unit>, n: nat)
    requires n <= |units| && !Started(units, n)
    ensures forall k :: 0 <= k < |Current(units, n)| ==> Current(units, n)[k].Continued?
  {
    if n > 0 && units[n - 1].Continued? { Unstarted(units, n - 1); }
  }

  lemma {:induction false} ContinuedIsEmpty(word: seq<Unit>, n: nat)
    requires n <= |word| && forall k :: 0 <= k < |word| ==> word[k].Continued?
    ensures Value(word, n) == [] && Separator(word, n) == None
  {
    if n > 0 { ContinuedIsEmpty(word, n - 1); }
  }

  /** Where no word has started, the state is as if nothing had been read since. */
  lemma UnstartedTracks(units: seq<Unit>, st: State)
    requires Tracks(units, st) && !st.started
    ensures TracksWord([], st)
  {
    var word := Current(units, |units|);
    Unstarted(units, |units|);
    ContinuedIsEmpty(word, |word|);
  }

  /** A unit that continues the word. */
  lemma TracksInWord(units: seq<Unit>, st: State, u: Unit, st': State)
    requires Tracks(units, st) && !u.Blank? && !u.Comment? && TracksWord(Current(units, |units|) + [u], st')
    requires st'.words == st.words && st'.started == (StartsWord(u) || st.started)
    ensures Tracks(units + [u], st')
  {
    UnitsPrefix(units, u, |units|);
  }

  /** A unit that ends the word, if there is one. */
  lemma TracksBetween(units: seq<Unit>, st: State, u: Unit)
    requires Tracks(units, st) && (u.Blank? || (u.Comment? && !st.started))
    ensures Tracks(units + [u], After(st, u))
  {
    UnitsPrefix(units, u, |units|);
    if !st.started { UnstartedTracks(units, st); }
  }

  /** Reading a unit keeps the state in step with the units. */
  lemma TracksNext(units: seq<Unit>, st: State, u: Unit)
    requires Tracks(units, st) && UnitOk(u, st.started)
    ensures Tracks(units + [u], After(st, u))
  {
    if u.Blank? || u.Comment? {
      TracksBetween(units, st, u);
    } else {
      var word := Current(units, |units|);
      if u.Continued? {
        WordContinues(word, st);
      } else if u.Bare? {
        WordBare(word, st, u.c);
      } else {
        WordQuoted(word, st, u);
      }
      TracksInWord(units, st, u, After(st, u));
    }
  }

  // -------------------------------------------------------------------------------------------------
  // The parser.
  // -------------------------------------------------------------------------------------------------

  datatype Quote = NoQuote | Single | Double

  /** The first `k` bytes consist of the given units. */
  ghost predicate ReadTo(s: string, k: nat, units: seq<Unit>) {
    Reads(s, units) && |Text(units, |units|)| == k
  }

  /** ... and the state describes them. */
  ghost predicate Between(s: string, k: nat, units: seq<Unit>, st: State) {
    ReadTo(s, k, units) && Tracks(units, st)
  }

  lemma UnitsOkNext(units: seq<Unit>, u: Unit)
    requires UnitsOk(units) && UnitOk(u, Started(units, |units|))
    ensures UnitsOk(units + [u])
  {
    var next := units + [u];
    forall x | 0 <= x < |next| ensures UnitOk(next[x], Started(next, x)) {
      UnitsPrefix(units, u, x);
    }
  }

  lemma ReadNext(s: string, k: nat, units: seq<Unit>, u: Unit)
    requires ReadTo(s, k, units) && UnitOk(u, Started(units, |units|)) && Has(s, k, UnitText(u))
    ensures ReadTo(s, k + |UnitText(u)|, units + [u])
  {
    UnitsOkNext(units, u);
    UnitsPrefix(units, u, |units|);
    HasJoin(s, 0, Text(units, |units|), UnitText(u));
  }

  lemma UnitRead(s: string, k: nat, units: seq<Unit>, st: State, u: Unit)
    requires Between(s, k, units, st) && UnitOk(u, st.started) && Has(s, k, UnitText(u))
    ensures Between(s, k + |UnitText(u)|, units + [u], After(st, u))
  {
    TracksNext(units, st, u);
    ReadNext(s, k, units, u);
  }

  /** Behind an opening quote at `p`, `text` has been read. */
  ghost predicate Opened(s: string, p: nat, k: nat, open: char, text: string) {
    p < |s| && s[p] == open && Has(s, p + 1, text) && k == p + 1 + |text|
  }

  /** ... and `value` has been added to the word. */
  ghost predicate Inside(s: string, k: nat, units: seq<Unit>, base: State, open: char, text: string, value: string,
                         st: State) {
    var p := |Text(units, |units|)|;
    Between(s, p, units, base) && Opened(s, p, k, open, text) && st == Quoted(base, value)
  }

  ghost predicate InSingle(s: string, k: nat, units: seq<Unit>, base: State, text: string, st: State) {
    Inside(s, k, units, base, '\'', text, text, st) && '\'' !in text
  }

  ghost predicate InDouble(s: string, k: nat, units: seq<Unit>, base: State, parts: seq<Part>, st: State) {
    Inside(s, k, units, base, '"', PartsText(parts, |parts|), PartsValue(parts, |parts|), st) && PartsOk(parts)
  }

  lemma OpenedGrows(s: string, p: nat, k: nat, open: char, text: string, t: string)
    requires Opened(s, p, k, open, text) && Has(s, k, t)
    ensures Opened(s, p, k + |t|, open, text + t)
  {
    HasJoin(s, p + 1, text, t);
  }

  lemma InsideGrows(s: string, k: nat, units: seq<Unit>, base: State, open: char, text: string, value: string,
                    st: State, t: string, v: string)
    requires Inside(s, k, units, base, open, text, value, st) && Has(s, k, t)
    ensures Inside(s, k + |t|, units, base, open, text + t, value + v, st.(value := st.value + v))
  {
    OpenedGrows(s, |Text(units, |units|)|, k, open, text, t);
    Regroup(base.value, value, v);
  }

  lemma OpenedCloses(s: string, p: nat, k: nat, q: char, text: string)
    requires Opened(s, p, k, q, text) && k < |s| && s[k] == q
    ensures Has(s, p, Enclosed(q, text, q)) && k + 1 == p + |Enclosed(q, text, q)|
  {
    HasEnclosed(s, p, q, text, q);
  }

  lemma QuoteOpens(s: string, k: nat, units: seq<Unit>, st: State)
    requires Between(s, k, units, st) && k < |s| && (s[k] == '\'' || s[k] == '"')
    ensures s[k] == '\'' ==> InSingle(s, k + 1, units, st, [], Quoted(st, []))
    ensures s[k] == '"' ==> InDouble(s, k + 1, units, st, [], Quoted(st, []))
  {
  }

  lemma SingleGrows(s: string, k: nat, units: seq<Unit>, base: State, text: string, st: State)
    requires InSingle(s, k, units, base, text, st) && k < |s| && s[k] != '\''
    ensures InSingle(s, k + 1, units, base, text + [s[k]], st.(value := st.value + [s[k]]))
  {
    HasOne(s, k, s[k]);
    InsideGrows(s, k, units, base, '\'', text, text, st, [s[k]], [s[k]]);
  }

  lemma SingleCloses(s: string, k: nat, units: seq<Unit>, base: State, text: string, st: State)
    requires InSingle(s, k, units, base, text, st) && k < |s| && s[k] == '\''
    ensures Between(s, k + 1, units + [SingleQuoted(text)], st)
  {
    var p := |Text(units, |units|)|;
    OpenedCloses(s, p, k, '\'', text);
    UnitRead(s, p, units, base, SingleQuoted(text));
  }

  lemma {:induction false} PartsPrefix(parts: seq<Part>, p: Part, n: nat)
    requires n <= |parts|
    ensures PartsText(parts + [p], n) == PartsText(parts, n) && PartsValue(parts + [p], n) == PartsValue(parts, n)
  {
    if n > 0 { PartsPrefix(parts, p, n - 1); }
  }

  lemma PartsPush(parts: seq<Part>, p: Part)
    ensures var n := |parts|;
      && PartsText(parts + [p], n + 1) == PartsText(parts, n) + PartText(p)
      && PartsValue(parts + [p], n + 1) == PartsValue(parts, n) + PartValue(p)
  {
    PartsPrefix(parts, p, |parts|);
  }

  lemma DoubleGrowsBy(s: string, k: nat, units: seq<Unit>, base: State, parts: seq<Part>, st: State, p: Part,
                      t: string, v: string)
    requires InDouble(s, k, units, base, parts, st) && PartOk(p) && t == PartText(p) && v == PartValue(p)
          && Has(s, k, t)
    ensures InDouble(s, k + |t|, units, base, parts + [p], st.(value := st.value + v))
  {
    PartsPush(parts, p);
    InsideGrows(s, k, units, base, '"', PartsText(parts, |parts|), PartsValue(parts, |parts|), st, t, v);
    assert PartsOk(parts + [p]);
  }

  lemma DoubleGrows(s: string, k: nat, units: seq<Unit>, base: State, parts: seq<Part>, st: State, p: Part)
    requires InDouble(s, k, units, base, parts, st) && PartOk(p) && Has(s, k, PartText(p))
    ensures InDouble(s, k + |PartText(p)|, units, base, parts + [p], st.(value := st.value + PartValue(p)))
  {
    DoubleGrowsBy(s, k, units, base, parts, st, p, PartText(p), PartValue(p));
  }

  lemma DoubleCloses(s: string, k: nat, units: seq<Unit>, base: State, parts: seq<Part>, st: State)
    requires InDouble(s, k, units, base, parts, st) && k < |s| && s[k] == '"'
    ensures Between(s, k + 1, units + [DoubleQuoted(parts)], st)
  {
    var p := |Text(units, |units|)|;
    OpenedCloses(s, p, k, '"', PartsText(parts, |parts|));
    UnitRead(s, p, units, base, DoubleQuoted(parts));
  }

  /** No line has this text. */
  ghost predicate Unreadable(s: string) {
    forall line :: LineOk(line) ==> LineText(line) != s
  }

  /** Nothing can follow what was read: neither a unit nor a comment without a newline. */
  ghost predicate DeadEnd(s: string, k: nat, started: bool) {
    k < |s| && s[k] != '#' && forall u :: UnitOk(u, started) ==> !Has(s, k, UnitText(u))
  }

  /** Of two readings, the longer one has a unit where the shorter one ends. */
  lemma UnitGoesOn(s: string, k: nat, units: seq<Unit>, more: seq<Unit>)
    requires ReadTo(s, k, units) && Reads(s, more) && |units| < |more|
    ensures UnitOk(more[|units|], Started(units, |units|)) && Has(s, k, UnitText(more[|units|]))
  {
    var n := |units|;
    ReadsSame(s, units, more, n);
    StartedSame(units, more, n);
    UnitAt(s, more, n, |more|);
  }

  lemma Stuck(s: string, k: nat, units: seq<Unit>)
    requires ReadTo(s, k, units) && DeadEnd(s, k, Started(units, |units|))
    ensures Unreadable(s)
  {
    forall line | LineOk(line) ensures LineText(line) != s {
      if LineText(line) == s {
        LineCovers(line, units);
        if |line.units| == |units| {
          LineStops(s, k, units, line);
        } else {
          LineEnds(line);
          UnitGoesOn(s, k, units, line.units);
        }
      }
    }
  }

  lemma LineStops(s: string, k: nat, units: seq<Unit>, line: Line)
    requires ReadTo(s, k, units) && LineOk(line) && LineText(line) == s && |units| == |line.units|
    ensures k == |s| || s[k] == '#'
  {
    LineEnds(line);
    ReadsSame(s, units, line.units, |units|);
    StartedSame(units, line.units, |units|);
  }

  lemma SingleDeadEnd(s: string, p: nat, text: string, started: bool)
    requires p < |s| && s[p] == '\'' && Has(s, p + 1, text) && p + 1 + |text| == |s| && '\'' !in text
    ensures DeadEnd(s, p, started)
  {
    NoneWithin(s, p + 1, text, '\'');
    forall u | UnitOk(u, started) ensures !Has(s, p, UnitText(u)) {
      if Has(s, p, UnitText(u)) {
        FirstByte(s, p, u);
        HasEnclosed(s, p, '\'', u.text, '\'');
      }
    }
  }

  lemma SingleUnclosed(s: string, units: seq<Unit>, base: State, text: string, st: State)
    requires InSingle(s, |s|, units, base, text, st)
    ensures DeadEnd(s, |Text(units, |units|)|, Started(units, |units|))
  {
    SingleDeadEnd(s, |Text(units, |units|)|, text, Started(units, |units|));
  }

  lemma StaysOpen(s: string, k: nat, parts: seq<Part>, closed: seq<Part>)
    requires PartsOk(parts) && Stands(s, k, parts, |parts|)
    requires var e := PartStart(k, parts, |parts|); e == |s| || (e + 1 == |s| && s[e] == '\\')
    ensures !Closes(s, k, closed)
  {
    var n := |parts|;
    if Closes(s, k, closed) {
      PartsWithin(s, k, parts, closed, n);
      PartStartSame(k, parts, closed, n);
      if n < |closed| {
        assert PartOk(closed[n]);
        PartAt(s, k, closed, n, |closed|);
      }
    }
  }

  /** Only a quoted string starts with a quote. */
  lemma FirstByte(s: string, k: nat, u: Unit)
    requires k < |s| && Has(s, k, UnitText(u)) && exists started :: UnitOk(u, started)
    ensures s[k] == '"' ==> u.DoubleQuoted?
    ensures s[k] == '\'' ==> u.SingleQuoted?
  {
    UnitHead(u);
    assert UnitText(u)[0] == s[k];
  }

  lemma DoubleDeadEnd(s: string, p: nat, parts: seq<Part>, started: bool)
    requires p < |s| && s[p] == '"' && PartsOk(parts) && Stands(s, p + 1, parts, |parts|)
    requires var e := PartStart(p + 1, parts, |parts|); e == |s| || (e + 1 == |s| && s[e] == '\\')
    ensures DeadEnd(s, p, started)
  {
    forall u | UnitOk(u, started) ensures !Has(s, p, UnitText(u)) {
      if Has(s, p, UnitText(u)) {
        FirstByte(s, p, u);
        StaysOpen(s, p + 1, parts, u.parts);
        QuotedCloses(s, p, u.parts);
      }
    }
  }

  /** At the end, or before a lone backslash at the end, the quote cannot be closed. */
  lemma DoubleUnclosed(s: string, k: nat, units: seq<Unit>, base: State, parts: seq<Part>, st: State)
    requires InDouble(s, k, units, base, parts, st) && (k == |s| || (k + 1 == |s| && s[k] == '\\'))
    ensures DeadEnd(s, |Text(units, |units|)|, Started(units, |units|))
  {
    var p := |Text(units, |units|)|;
    StandsText(s, p + 1, parts, |parts|);
    PartStartIs(p + 1, parts, |parts|);
    DoubleDeadEnd(s, p, parts, Started(units, |units|));
  }

  /** Which error is reported for a text that cannot be read beyond `k`. */
  ghost predicate ErrorAt(s: string, k: nat, e: Error) {
    match e
    case MissingClosingQuote => k < |s| && (s[k] == '\'' || s[k] == '"')
    case MissingEscapedByte => k + 1 == |s| && s[k] == '\\'
    case MissingCommand => false
  }

  /** Reading stops at `k`, behind the given units and for the given reason. */
  ghost predicate StopsAt(s: string, k: nat, units: seq<Unit>, e: Error) {
    ReadTo(s, k, units) && DeadEnd(s, k, Started(units, |units|)) && ErrorAt(s, k, e)
  }

  /** A text stops at one place and for one reason. */
  lemma StopsOnce(s: string, k: nat, units: seq<Unit>, e: Error, k': nat, units': seq<Unit>, e': Error)
    requires StopsAt(s, k, units, e) && StopsAt(s, k', units', e')
    ensures k == k' && units == units' && e == e'
  {
    if |units| < |units'| {
      UnitGoesOn(s, k, units, units');
    } else if |units'| < |units| {
      UnitGoesOn(s, k', units', units);
    } else {
      ReadsSame(s, units, units', |units|);
      assert units == units';
    }
  }

  lemma UnitFits(s: string, k: nat, u: Unit, started: bool)
    requires UnitOk(u, started) && Has(s, k, UnitText(u))
    ensures k < |s| && (s[k] == '\\' ==> k + 1 < |s|)
  {
    UnitHead(u);
    assert UnitText(u)[0] == s[k];
  }

  lemma LoneBackslash(s: string, k: nat, units: seq<Unit>)
    requires ReadTo(s, k, units) && k + 1 == |s| && s[k] == '\\'
    ensures StopsAt(s, k, units, MissingEscapedByte)
  {
    var started := Started(units, |units|);
    forall u | UnitOk(u, started) ensures !Has(s, k, UnitText(u)) {
      if Has(s, k, UnitText(u)) { UnitFits(s, k, u, started); }
    }
  }

  /** The only reading of a text gives its words. */
  ghost predicate Means(s: string, words: seq<Word>) {
    && (exists line :: LineOk(line) && LineText(line) == s)
    && (forall line :: LineOk(line) && LineText(line) == s ==> Words(line.units) == words)
  }

  lemma LineMeans(line: Line)
    requires LineOk(line)
    ensures Means(LineText(line), Words(line.units))
  {
    forall other | LineOk(other) && LineText(other) == LineText(line) ensures other == line {
      Unambiguous(other, line);
    }
  }

  lemma TracksWords(units: seq<Unit>, st: State)
    requires Tracks(units, st)
    ensures EndWord(st).words == Words(units)
  {
  }

  lemma AllRead(s: string, units: seq<Unit>, st: State)
    requires Between(s, |s|, units, st)
    ensures Means(s, EndWord(st).words)
  {
    TracksWords(units, st);
    HasSame(s, 0, s, Text(units, |units|));
    assert s + [] == s;
    LineMeans(Line(units, None));
  }

  lemma CommentSplits(s: string, k: nat)
    requires k < |s| && s[k] == '#'
    ensures s[..k] + (['#'] + s[k + 1..]) == s
  {
  }

  lemma CommentRead(s: string, k: nat, units: seq<Unit>, st: State)
    requires Between(s, k, units, st) && k < |s| && s[k] == '#' && !st.started
    requires forall x :: k < x < |s| ==> s[x] != '\n'
    ensures Means(s, EndWord(st).words)
  {
    TracksWords(units, st);
    HasSame(s, 0, s[..k], Text(units, |units|));
    CommentSplits(s, k);
    LineMeans(Line(units, Some(s[k + 1..])));
  }

  /** The place of the first newline at or after `k`, or the length of the text. */
  method FindNewline(s: string, k: nat) returns (e: nat)
    requires k <= |s|
    ensures k <= e <= |s| && (e < |s| ==> s[e] == '\n') && forall x :: k <= x < e ==> s[x] != '\n'
  {
    e := k;
    while e < |s| && s[e] != '\n'
      invariant k <= e <= |s| && forall x :: k <= x < e ==> s[x] != '\n'
    {
      e := e + 1;
    }
  }

  /** The unit that starts with an unquoted byte which is neither a quote nor opens a comment. */
  ghost function BareUnit(s: string, k: nat): Unit
    requires k < |s| && (s[k] == '\\' ==> k + 1 < |s|)
  {
    if IsBlank(s[k]) then Blank(s[k])
    else if s[k] != '\\' then Bare(s[k])
    else if s[k + 1] == '\n' then Continued
    else Escaped(s[k + 1])
  }

  lemma BareUnitStands(s: string, k: nat, started: bool)
    requires k < |s| && s[k] != '\'' && s[k] != '"' && (s[k] == '#' ==> started) && (s[k] == '\\' ==> k + 1 < |s|)
    ensures UnitOk(BareUnit(s, k), started) && Has(s, k, UnitText(BareUnit(s, k)))
    ensures |UnitText(BareUnit(s, k))| == if s[k] == '\\' then 2 else 1
  {
  }

  method ParseBare(s: string, k: nat, ghost units: seq<Unit>, st: State) returns (next: nat, st': State)
    requires Between(s, k, units, st) && k < |s| && s[k] != '\'' && s[k] != '"'
    requires s[k] == '#' ==> st.started
    requires s[k] == '\\' ==> k + 1 < |s|
    ensures k < next <= |s| && Between(s, next, units + [BareUnit(s, k)], st')
  {
    BareUnitStands(s, k, st.started);
    UnitRead(s, k, units, st, BareUnit(s, k));
    next, st' := k + 1, st;
    if IsBlank(s[k]) {
      st' := EndWord(st);
    } else if s[k] == '\\' {
      next := k + 2;
      if s[k + 1] != '\n' { st' := Quoted(st, [s[k + 1]]); }
    } else {
      st' := Pushed(st, s[k]);
    }
  }

  /** Reads one part between double quotes. */
  method ParseDouble(s: string, k: nat, ghost units: seq<Unit>, ghost base: State, ghost parts: seq<Part>, st: State)
    returns (next: nat, st': State, ghost p: Part)
    requires InDouble(s, k, units, base, parts, st) && k < |s| && s[k] != '"'
    requires s[k] == '\\' ==> k + 1 < |s|
    ensures k < next <= |s| && InDouble(s, next, units, base, parts + [p], st')
  {
    if s[k] != '\\' {
      next, st', p := k + 1, st.(value := st.value + [s[k]]), Plain(s[k]);
    } else if s[k + 1] == '\n' {
      next, st', p := k + 2, st, Joined;
      assert st.value + [] == st.value;
    } else if IsSpecial(s[k + 1]) {
      next, st', p := k + 2, st.(value := st.value + [s[k + 1]]), Special(s[k + 1]);
    } else {
      next, st', p := k + 2, st.(value := st.value + [s[k], s[k + 1]]), Kept(s[k + 1]);
    }
    DoubleGrows(s, k, units, base, parts, st, p);
  }

  /** What has been read: whole units, and what stands behind an opening quote. */
  datatype Progress = Progress(units: seq<Unit>, base: State, text: string, parts: seq<Part>)

  ghost predicate Reached(s: string, k: nat, quote: Quote, g: Progress, st: State) {
    match quote
    case NoQuote => Between(s, k, g.units, st)
    case Single => InSingle(s, k, g.units, g.base, g.text, st)
    case Double => InDouble(s, k, g.units, g.base, g.parts, st)
  }

  method StepSingle(s: string, k: nat, st: State, ghost g: Progress)
    returns (quote: Quote, st': State, ghost g': Progress)
    requires k < |s| && Reached(s, k, Single, g, st)
    ensures Reached(s, k + 1, quote, g', st')
  {
    if s[k] == '\'' {
      SingleCloses(s, k, g.units, g.base, g.text, st);
      quote, st', g' := NoQuote, st, g.(units := g.units + [SingleQuoted(g.text)]);
    } else {
      SingleGrows(s, k, g.units, g.base, g.text, st);
      quote, st', g' := Single, st.(value := st.value + [s[k]]), g.(text := g.text + [s[k]]);
    }
  }

  method StepDouble(s: string, k: nat, st: State, ghost g: Progress)
    returns (next: nat, quote: Quote, st': State, ghost g': Progress)
    requires k < |s| && Reached(s, k, Double, g, st) && (s[k] == '\\' ==> k + 1 < |s|)
    ensures k < next <= |s| && Reached(s, next, quote, g', st')
  {
    if s[k] == '"' {
      DoubleCloses(s, k, g.units, g.base, g.parts, st);
      next, quote, st', g' := k + 1, NoQuote, st, g.(units := g.units + [DoubleQuoted(g.parts)]);
    } else {
      ghost var p;
      next, st', p := ParseDouble(s, k, g.units, g.base, g.parts, st);
      quote, g' := Double, g.(parts := g.parts + [p]);
    }
  }

  method StepBare(s: string, k: nat, st: State, ghost g: Progress)
    returns (next: nat, quote: Quote, st': State, ghost g': Progress)
    requires k < |s| && Reached(s, k, NoQuote, g, st) && (s[k] == '#' ==> st.started) && (s[k] == '\\' ==> k + 1 < |s|)
    ensures k < next <= |s| && Reached(s, next, quote, g', st')
  {
    if s[k] == '\'' || s[k] == '"' {
      QuoteOpens(s, k, g.units, st);
      next, quote := k + 1, if s[k] == '"' then Double else Single;
      st', g' := Quoted(st, []), Progress(g.units, st, [], []);
    } else {
      next, st' := ParseBare(s, k, g.units, st);
      quote, g' := NoQuote, g.(units := g.units + [BareUnit(s, k)]);
    }
  }

  /** A quote that is still open at the end, or a backslash there, makes the text unreadable. */
  lemma Unclosed(s: string, k: nat, quote: Quote, g: Progress, st: State)
    requires Reached(s, k, quote, g, st) && !quote.NoQuote?
    requires k == |s| || (quote.Double? && k + 1 == |s| && s[k] == '\\')
    ensures StopsAt(s, |Text(g.units, |g.units|)|, g.units, MissingClosingQuote)
  {
    if quote.Single? {
      SingleUnclosed(s, g.units, g.base, g.text, st);
    } else {
      DoubleUnclosed(s, k, g.units, g.base, g.parts, st);
    }
  }

  /** Succeeds exactly on the texts that have a reading, with the words of that reading. */
  method ParseWords(s: string) returns (r: Result<seq<Word>, Error>)
    ensures r.Ok? ==> Means(s, r.value)
    ensures r.Err? ==> Unreadable(s) && exists units, k :: StopsAt(s, k, units, r.error)
  {
    var st, quote: Quote, k := START, NoQuote, 0;
    ghost var g := Progress([], START, [], []);
    while k < |s|
      invariant k <= |s| && Reached(s, k, quote, g, st)
      decreases |s| - k
    {
      if quote.Single? {
        quote, st, g := StepSingle(s, k, st, g);
        k := k + 1;
      } else if s[k] == '\\' && k + 1 == |s| {
        if quote.Double? {
          Unclosed(s, k, quote, g, st);
          Stuck(s, |Text(g.units, |g.units|)|, g.units);
          return Err(MissingClosingQuote);
        }
        LoneBackslash(s, k, g.units);
        Stuck(s, k, g.units);
        return Err(MissingEscapedByte);
      } else if quote.Double? {
        k, quote, st, g := StepDouble(s, k, st, g);
      } else if s[k] == '#' && !st.started {
        var e := FindNewline(s, k + 1);
        if e == |s| {
          CommentRead(s, k, g.units, st);
          return Ok(EndWord(st).words);
        }
        CommentLine(s, k, e, g.units, st);
        k, g := e + 1, g.(units := g.units + [Comment(s[k + 1..e])]);
      } else {
        k, quote, st, g := StepBare(s, k, st, g);
      }
    }
    if !quote.NoQuote? {
      Unclosed(s, k, quote, g, st);
      Stuck(s, |Text(g.units, |g.units|)|, g.units);
      return Err(MissingClosingQuote);
    }
    AllRead(s, g.units, st);
    r := Ok(EndWord(st).words);
  }

  lemma CommentLine(s: string, k: nat, e: nat, units: seq<Unit>, st: State)
    requires Between(s, k, units, st) && k < e < |s| && s[k] == '#' && !st.started && s[e] == '\n'
    requires forall x :: k < x < e ==> s[x] != '\n'
    ensures Between(s, e + 1, units + [Comment(s[k + 1..e])], st)
  {
    var u := Comment(s[k + 1..e]);
    HasEnclosed(s, k, '#', u.text, '\n');
    UnitRead(s, k, units, st, u);
  }

  // -------------------------------------------------------------------------------------------------
  // Assignments and the command.
  // -------------------------------------------------------------------------------------------------

  lemma {:induction false} ValuePrefix(word: seq<Unit>, k: nat, n: nat)
    requires k <= n <= |word|
    ensures Value(word, k) <= Value(word, n)
    decreases n - k
  {
    if k < n { ValuePrefix(word, k, n - 1); }
  }

  lemma NamePrefixOf(a: string, b: string)
    requires a <= b && NamePrefix(b)
    ensures NamePrefix(a)
  {
  }

  lemma NamingPrefix(word: seq<Unit>, n: nat)
    requires 0 < n <= |word| && Naming(word, n)
    ensures Naming(word, n - 1)
  {
    ValuePrefix(word, n - 1, n);
    NamePrefixOf(Value(word, n - 1), Value(word, n));
  }

  /** Behind its separator a word is not a name any more. */
  lemma {:induction false} SeparatorEndsName(word: seq<Unit>, n: nat)
    requires n <= |word| && Separator(word, n).Some?
    ensures !Naming(word, n)
  {
    if Separator(word, n - 1).Some? {
      SeparatorEndsName(word, n - 1);
      if Naming(word, n) { NamingPrefix(word, n); }
    } else {
      assert Value(word, n) == Value(word, n - 1) + ['='];
      NameGrows(Value(word, n - 1), '=');
    }
  }

  /** Unit `k` is an unquoted `=` behind an unquoted shell identifier, and stands at `i` in the value. */
  predicate SeparatesAt(word: seq<Unit>, k: nat, i: nat)
    requires k < |word|
  {
    AssignsAt(word, k) && |Value(word, k)| == i
  }

  lemma SeparatesLater(word: seq<Unit>, n: nat)
    requires n < |word| && Separator(word, n).Some?
    ensures !AssignsAt(word, n)
  {
    SeparatorEndsName(word, n);
  }

  /** The separator is the place of the unquoted `=` behind an unquoted shell identifier, and there is only one. */
  lemma {:induction false} SeparatorIsAssignment(word: seq<Unit>, n: nat, i: nat)
    requires n <= |word|
    ensures Separator(word, n) == Some(i) <==> exists k :: 0 <= k < n && SeparatesAt(word, k, i)
  {
    if n > 0 {
      SeparatorIsAssignment(word, n - 1, i);
      if Separator(word, n - 1).Some? {
        SeparatesLater(word, n - 1);
        assert !SeparatesAt(word, n - 1, i);
      } else {
        assert SeparatesAt(word, n - 1, i) <==> Separator(word, n) == Some(i);
      }
    }
  }

  /** An assignment consists of a name, the `=` and a value. */
  predicate Formed(w: Word) {
    w.separator.Some? ==>
      0 < w.separator.value < |w.value| && w.value[w.separator.value] == '=' && NamePrefix(w.value[..w.separator.value])
  }

  lemma BeginsWithName(name: string, v: string)
    requires name + ['='] <= v
    ensures |name| < |v| && v[|name|] == '=' && v[..|name|] == name
  {
    assert (name + ['='])[|name|] == '=';
    assert forall k :: 0 <= k < |name| ==> (name + ['='])[k] == name[k];
  }

  lemma WordFormed(word: seq<Unit>)
    ensures Formed(WordOf(word))
  {
    var n := |word|;
    if Separator(word, n).Some? {
      SeparatorIsAssignment(word, n, Separator(word, n).value);
      var k :| 0 <= k < n && SeparatesAt(word, k, Separator(word, n).value);
      ValuePrefix(word, k + 1, n);
      BeginsWithName(Value(word, k), Value(word, n));
    }
  }

  lemma {:induction false} EndedFormed(units: seq<Unit>, n: nat)
    requires n <= |units|
    ensures forall k :: 0 <= k < |Ended(units, n)| ==> Formed(Ended(units, n)[k])
  {
    if n > 0 {
      EndedFormed(units, n - 1);
      WordFormed(Current(units, n - 1));
    }
  }

  predicate AllFormed(words: seq<Word>) {
    forall k :: 0 <= k < |words| ==> Formed(words[k])
  }

  lemma WordsFormed(s: string, words: seq<Word>)
    requires Means(s, words)
    ensures AllFormed(words)
  {
    var line :| LineOk(line) && LineText(line) == s;
    EndedFormed(line.units, |line.units|);
    WordFormed(Current(line.units, |line.units|));
  }

  datatype Outcome = Outcome(env: seq<(string, string)>, command: string, args: seq<string>)

  /** The command comes first after all leading assignments. */
  predicate IsOutcome(words: seq<Word>, o: Outcome) {
    var n := |o.env|;
    && n < |words| && words[n].separator.None? && o.command == words[n].value
    && (forall k :: 0 <= k < n ==> words[k].separator.Some? && words[k].value == o.env[k].0 + ['='] + o.env[k].1)
    && (forall k :: 0 <= k < n ==> o.env[k].0 != [] && NamePrefix(o.env[k].0))
    && |o.args| == |words| - n - 1 && forall k :: 0 <= k < |o.args| ==> o.args[k] == words[n + 1 + k].value
  }

  method LeadingAssignments(words: seq<Word>) returns (n: nat)
    ensures n <= |words| && (n < |words| ==> words[n].separator.None?)
    ensures forall k :: 0 <= k < n ==> words[k].separator.Some?
  {
    n := 0;
    while n < |words| && words[n].separator.Some?
      invariant n <= |words| && forall k :: 0 <= k < n ==> words[k].separator.Some?
    {
      n := n + 1;
    }
  }

  method Environment(words: seq<Word>, n: nat) returns (env: seq<(string, string)>)
    requires n <= |words| && AllFormed(words) && forall k :: 0 <= k < n ==> words[k].separator.Some?
    ensures |env| == n
    ensures forall k :: 0 <= k < n ==> words[k].value == env[k].0 + ['='] + env[k].1
    ensures forall k :: 0 <= k < n ==> env[k].0 != [] && NamePrefix(env[k].0)
  {
    env := [];
    for i := 0 to n
      invariant |env| == i
      invariant forall k :: 0 <= k < i ==> words[k].value == env[k].0 + ['='] + env[k].1
      invariant forall k :: 0 <= k < i ==> env[k].0 != [] && NamePrefix(env[k].0)
    {
      assert Formed(words[i]);
      var v, at := words[i].value, words[i].separator.value;
      assert v == v[..at] + ['='] + v[at + 1..];
      env := env + [(v[..at], v[at + 1..])];
    }
  }

  method Arguments(words: seq<Word>, n: nat) returns (args: seq<string>)
    requires n <= |words|
    ensures |args| == |words| - n && forall k :: 0 <= k < |args| ==> args[k] == words[n + k].value
  {
    args := [];
    for i := n to |words|
      invariant |args| == i - n && forall k :: 0 <= k < |args| ==> args[k] == words[n + k].value
    {
      args := args + [words[i].value];
    }
  }

  predicate OnlyAssignments(words: seq<Word>) {
    forall k :: 0 <= k < |words| ==> words[k].separator.Some?
  }

  method SplitWords(words: seq<Word>) returns (r: Option<Outcome>)
    requires AllFormed(words)
    ensures if r.Some? then IsOutcome(words, r.value) else OnlyAssignments(words)
  {
    var n := LeadingAssignments(words);
    if n == |words| { return None; }
    var env := Environment(words, n);
    var args := Arguments(words, n + 1);
    r := Some(Outcome(env, words[n].value, args));
  }

  method CommandLine(s: string) returns (r: Result<Outcome, Error>)
    ensures r.Ok? ==> exists words :: Means(s, words) && IsOutcome(words, r.value)
    ensures r == Err(MissingCommand) ==> exists words :: Means(s, words) && OnlyAssignments(words)
    ensures r.Err? && !r.error.MissingCommand? ==> Unreadable(s) && exists units, k :: StopsAt(s, k, units, r.error)
  {
    var parsed := ParseWords(s);
    if parsed.Err? { return Err(parsed.error); }
    WordsFormed(s, parsed.value);
    var split := SplitWords(parsed.value);
    r := if split.Some? then Ok(split.value) else Err(MissingCommand);
  }
}
