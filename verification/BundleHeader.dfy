/**
 * `gix-bundle/src/header.rs`: the header of a bundle, read line by line in front of the pack data. An object id is
 * its hexadecimal form in lower case.
 */
module BundleHeader {
  import opened Capabilities
  import opened Sequences
  import opened Wrappers

  datatype Error = InvalidSignature | UnexpectedEof | InvalidPrerequisite | InvalidRef | NoRefs | TooManyEntries
                 | ObjectId | Capability(reason: CapabilityError)

  datatype Version = V2 | V3
  datatype Prerequisite = Prerequisite(id: string, comment: Option<string>)
  datatype Ref = Ref(id: string, name: string)
  datatype Header = Header(version: Version, prerequisites: seq<Prerequisite>, refs: seq<Ref>,
                           capabilities: seq<string>)

  const MAX_ENTRIES: nat := 100_000

  predicate LowerHex(c: char) { '0' <= c <= '9' || 'a' <= c <= 'f' }
  predicate UpperHex(c: char) { 'A' <= c <= 'F' }

  function Lower(c: char): char { if UpperHex(c) then c - 'A' + 'a' else c }

  predicate IsId(id: string, format: Format) {
    |id| == HexLen(format) && forall k :: 0 <= k < |id| ==> LowerHex(id[k])
  }

  /** Ids are read in either case. */
  function ParseId(hex: string): Option<string> {
    if forall k :: 0 <= k < |hex| ==> LowerHex(hex[k]) || UpperHex(hex[k])
    then Some(seq(|hex|, k requires 0 <= k < |hex| => Lower(hex[k])))
    else None
  }

  lemma ParseIdInverse(id: string, format: Format)
    requires IsId(id, format)
    ensures ParseId(id) == Some(id)
  {
    assert seq(|id|, k requires 0 <= k < |id| => Lower(id[k])) == id;
  }

  // -------------------------------------------------------------------------------------------------
  // Reading.
  // -------------------------------------------------------------------------------------------------

  /** The place behind the line that starts at `k`, its newline included. */
  function LineEnd(data: string, k: nat): (e: nat)
    requires k <= |data|
    ensures k <= e <= |data| && (k < |data| ==> k < e)
    decreases |data| - k
  {
    if k == |data| then k else if data[k] == '\n' then k + 1 else LineEnd(data, k + 1)
  }

  /** The start of the `n`-th line. */
  function LineStart(data: string, n: nat): (k: nat)
    ensures k <= |data|
  {
    if n == 0 then 0 else LineEnd(data, LineStart(data, n - 1))
  }

  function Without(line: string, c: char): string {
    if line != [] && line[|line| - 1] == c then line[..|line| - 1] else line
  }

  function Trimmed(line: string): string {
    Without(Without(line, '\n'), '\r')
  }

  /** The line that starts at `k`. */
  function LineFrom(data: string, k: nat): string
    requires k <= |data|
  {
    Trimmed(data[k..LineEnd(data, k)])
  }

  function LineAt(data: string, n: nat): string {
    LineFrom(data, LineStart(data, n))
  }

  /** The lines read so far; `split` says that the blank line behind the capabilities has been read. */
  datatype State =
    | Begin
    | Body(header: Header, split: bool)
    | Finished(header: Header)
    | Failed(error: Error)

  predicate Running(st: State) {
    st.Begin? || st.Body?
  }

  function Signature(version: Version): string {
    if version == V2 then "# v2 git bundle" else "# v3 git bundle"
  }

  function First(line: string): State {
    if line == Signature(V2) then Body(Header(V2, [], [], []), false)
    else if line == Signature(V3) then Body(Header(V3, [], [], []), false)
    else Failed(InvalidSignature)
  }

  function ReadPrerequisite(rest: string, h: Header, split: bool, format: Format): State {
    var n := HexLen(format);
    if |rest| < n then Failed(InvalidPrerequisite)
    else
      match ParseId(rest[..n])
      case None => Failed(ObjectId)
      case Some(id) =>
        if |rest| == n then Body(h.(prerequisites := h.prerequisites + [Prerequisite(id, None)]), split)
        else if rest[n] != ' ' then Failed(InvalidPrerequisite)
        else Body(h.(prerequisites := h.prerequisites + [Prerequisite(id, Some(rest[n + 1..]))]), split)
  }

  function ReadRef(line: string, h: Header, split: bool, format: Format): State {
    var n := HexLen(format);
    if |line| < n + 1 then Failed(InvalidRef)
    else
      match ParseId(line[..n])
      case None => Failed(ObjectId)
      case Some(id) =>
        if line[n] != ' ' || |line| == n + 1 then Failed(InvalidRef)
        else Body(h.(refs := h.refs + [Ref(id, line[n + 1..])]), split)
  }

  predicate NoEntries(h: Header) {
    h.refs == [] && h.prerequisites == []
  }

  function ReadBlank(h: Header, split: bool): State {
    if h.version == V3 && !split && NoEntries(h) then Body(h, true)
    else if h.refs == [] then Failed(NoRefs)
    else Finished(h)
  }

  function ReadLine(line: string, h: Header, split: bool, format: Format): State {
    if line == [] then ReadBlank(h, split)
    else if |h.prerequisites| + |h.refs| >= MAX_ENTRIES then Failed(TooManyEntries)
    else if line[0] == '-' then ReadPrerequisite(line[1..], h, split, format)
    else if h.version == V3 && NoEntries(h) && line[0] == '@' then
      match CheckCapability(line[1..], format)
      case None => Body(h.(capabilities := h.capabilities + [line[1..]]), split)
      case Some(reason) => Failed(Capability(reason))
    else ReadRef(line, h, split, format)
  }

  function Next(st: State, line: string, format: Format): State {
    match st
    case Begin => First(line)
    case Body(h, split) => ReadLine(line, h, split, format)
    case _ => st
  }

  type Reader = (State, string) -> State

  function ReaderOf(format: Format): Reader {
    (st, line) => Next(st, line, format)
  }

  /** The state behind the first `n` lines. */
  function After(data: string, n: nat, reader: Reader): State {
    if n == 0 then Begin else reader(After(data, n - 1, reader), LineAt(data, n - 1))
  }

  /** There is an `i`-th line, and the header has not ended before it. */
  ghost predicate Continues(data: string, reader: Reader, i: nat) {
    LineStart(data, i) < |data| && Running(After(data, i, reader))
  }

  ghost predicate RunningUpTo(data: string, reader: Reader, n: nat) {
    forall i :: 0 <= i < n ==> Continues(data, reader, i)
  }

  /** The header ends with the line before the `n`-th one. */
  ghost predicate EndsAt(data: string, reader: Reader, n: nat, h: Header) {
    After(data, n, reader) == Finished(h) && RunningUpTo(data, reader, n)
  }

  /** A header ends in only one place. */
  lemma EndsOnce(data: string, reader: Reader, n: nat, h: Header, m: nat, g: Header)
    requires EndsAt(data, reader, n, h) && EndsAt(data, reader, m, g)
    ensures n == m && h == g
  {
    assert m < n ==> Continues(data, reader, m);
    assert n < m ==> Continues(data, reader, n);
  }

  ghost predicate NeverEnds(data: string, reader: Reader) {
    forall n, h :: !EndsAt(data, reader, n, h)
  }

  /** Reading stops before the `n`-th line without having met the end of the header. */
  ghost predicate StopsAt(data: string, reader: Reader, n: nat) {
    RunningUpTo(data, reader, n) && !Continues(data, reader, n) && !After(data, n, reader).Finished?
  }

  /** ... because a line was wrong, or because there was none. */
  ghost predicate FailsAt(data: string, reader: Reader, n: nat, e: Error) {
    && StopsAt(data, reader, n)
    && e == if After(data, n, reader).Failed? then After(data, n, reader).error else UnexpectedEof
  }

  lemma NotAt(data: string, reader: Reader, n: nat, m: nat, h: Header)
    requires StopsAt(data, reader, n)
    ensures !EndsAt(data, reader, m, h)
  {
    if m < n {
      assert Continues(data, reader, m);
    } else if n < m {
      assert !Continues(data, reader, n);
    }
  }

  lemma DoesNotEnd(data: string, reader: Reader, n: nat)
    requires StopsAt(data, reader, n)
    ensures NeverEnds(data, reader)
  {
    forall m: nat, h ensures !EndsAt(data, reader, m, h) {
      NotAt(data, reader, n, m, h);
    }
  }

  /** The first `n` lines have been read, up to `pos`. */
  ghost predicate ReadUpTo(data: string, reader: Reader, n: nat, st: State, pos: nat) {
    pos == LineStart(data, n) && st == After(data, n, reader) && RunningUpTo(data, reader, n)
  }

  lemma ReadsOn(data: string, reader: Reader, n: nat, st: State, pos: nat)
    requires ReadUpTo(data, reader, n, st, pos) && Running(st) && pos < |data|
    ensures ReadUpTo(data, reader, n + 1, reader(st, LineFrom(data, pos)), LineEnd(data, pos))
  {
    assert Continues(data, reader, n);
  }

  lemma ReadStops(data: string, reader: Reader, n: nat, st: State, pos: nat)
    requires ReadUpTo(data, reader, n, st, pos) && (pos == |data| || !Running(st)) && !st.Finished?
    ensures NeverEnds(data, reader) && FailsAt(data, reader, n, if st.Failed? then st.error else UnexpectedEof)
  {
    assert !Continues(data, reader, n);
    DoesNotEnd(data, reader, n);
  }

  /** Reads lines until the header ends, and says where the pack data begins. */
  method ReadHeader(data: string, reader: Reader) returns (r: Result<(Header, nat), Error>)
    ensures r.Ok? ==> exists n :: EndsAt(data, reader, n, r.value.0) && r.value.1 == LineStart(data, n)
    ensures r.Err? ==> NeverEnds(data, reader) && exists n :: FailsAt(data, reader, n, r.error)
  {
    var st: State, pos: nat := Begin, 0;
    ghost var n := 0;
    while Running(st)
      invariant pos <= |data| && ReadUpTo(data, reader, n, st, pos)
      decreases |data| - pos, if Running(st) then 1 else 0
    {
      if pos == |data| {
        ReadStops(data, reader, n, st, pos);
        return Err(UnexpectedEof);
      }
      ReadsOn(data, reader, n, st, pos);
      st, pos, n := reader(st, LineFrom(data, pos)), LineEnd(data, pos), n + 1;
    }
    if st.Failed? {
      ReadStops(data, reader, n, st, pos);
      return Err(st.error);
    }
    r := Ok((st.header, pos));
  }

  method Decode(data: string, format: Format) returns (r: Result<(Header, nat), Error>)
    ensures r.Ok? ==> exists n :: EndsAt(data, ReaderOf(format), n, r.value.0) && r.value.1 == LineStart(data, n)
    ensures r.Err? ==> NeverEnds(data, ReaderOf(format)) && exists n :: FailsAt(data, ReaderOf(format), n, r.error)
  {
    r := ReadHeader(data, ReaderOf(format));
  }

  // -------------------------------------------------------------------------------------------------
  // Writing.
  // -------------------------------------------------------------------------------------------------

  function PrerequisiteLine(p: Prerequisite): string {
    "-" + p.id + if p.comment.Some? then " " + p.comment.value else ""
  }

  function RefLine(r: Ref): string {
    r.id + " " + r.name
  }

  function Lines(h: Header): nat {
    2 + |h.capabilities| + |h.prerequisites| + |h.refs|
  }

  /** The `n`-th line of a header. */
  function Line(h: Header, n: nat): string
    requires n < Lines(h)
  {
    var c, p, r := |h.capabilities|, |h.prerequisites|, |h.refs|;
    if n == 0 then Signature(h.version)
    else if n <= c then "@" + h.capabilities[n - 1]
    else if n <= c + p then PrerequisiteLine(h.prerequisites[n - 1 - c])
    else if n <= c + p + r then RefLine(h.refs[n - 1 - c - p])
    else []
  }

  function LinesOf(h: Header): seq<string> {
    seq(Lines(h), n requires 0 <= n < Lines(h) => Line(h, n))
  }

  /** The first `n` lines, each with its newline. */
  function Text(lines: seq<string>, n: nat): string
    requires n <= |lines|
  {
    if n == 0 then [] else Text(lines, n - 1) + (lines[n - 1] + ['\n'])
  }

  function Written(h: Header): string {
    Text(LinesOf(h), Lines(h))
  }

  predicate NoNewline(s: string) {
    forall k :: 0 <= k < |s| ==> s[k] != '\n'
  }

  /** Text that survives being a line or the end of one. */
  predicate Plain(s: string) {
    NoNewline(s) && (s == [] || s[|s| - 1] != '\r')
  }

  /** What every header that was read satisfies. */
  predicate Sound(h: Header, format: Format) {
    && |h.prerequisites| + |h.refs| <= MAX_ENTRIES
    && (h.version == V2 ==> h.capabilities == [])
    && (forall k :: 0 <= k < |h.capabilities| ==> CheckCapability(h.capabilities[k], format).None?)
    && (forall k :: 0 <= k < |h.prerequisites| ==> IsId(h.prerequisites[k].id, format))
    && (forall k :: 0 <= k < |h.refs| ==> IsId(h.refs[k].id, format) && h.refs[k].name != [])
  }

  predicate PlainFields(h: Header) {
    && (forall k :: 0 <= k < |h.capabilities| ==> Plain(h.capabilities[k]))
    && (forall k :: 0 <= k < |h.prerequisites| ==>
          (h.prerequisites[k].comment.Some? ==> Plain(h.prerequisites[k].comment.value)))
    && (forall k :: 0 <= k < |h.refs| ==> Plain(h.refs[k].name))
  }

  predicate UnbrokenFields(h: Header) {
    && (forall k :: 0 <= k < |h.capabilities| ==> NoNewline(h.capabilities[k]))
    && (forall k :: 0 <= k < |h.prerequisites| ==>
          (h.prerequisites[k].comment.Some? ==> NoNewline(h.prerequisites[k].comment.value)))
    && (forall k :: 0 <= k < |h.refs| ==> NoNewline(h.refs[k].name))
  }

  predicate Complete(h: Header, format: Format) {
    h.refs != [] && Sound(h, format)
  }

  /** Headers that are read from some data. */
  predicate Readable(h: Header, format: Format) {
    Complete(h, format) && UnbrokenFields(h)
  }

  /** Headers that can be written and read back. */
  predicate WellFormed(h: Header, format: Format) {
    Complete(h, format) && PlainFields(h)
  }

  // -------------------------------------------------------------------------------------------------
  // What is written is read back.
  // -------------------------------------------------------------------------------------------------

  lemma {:induction false} LineEndIs(data: string, k: nat, e: nat)
    requires k <= e < |data| && data[e] == '\n' && forall x :: k <= x < e ==> data[x] != '\n'
    ensures LineEnd(data, k) == e + 1
    decreases e - k
  {
    if k < e { LineEndIs(data, k + 1, e); }
  }

  /** A line is read as it was written, but for a carriage return at its end. */
  lemma LineReads(data: string, k: nat, line: string)
    requires NoNewline(line) && Has(data, k, line + ['\n'])
    ensures LineEnd(data, k) == k + |line| + 1 <= |data| && LineFrom(data, k) == Without(line, '\r')
  {
    HasJoin(data, k, line, ['\n']);
    assert data[k + |line|] == ['\n'][0];
    forall x | k <= x < k + |line| ensures data[x] != '\n' {
      assert line[x - k] == data[x];
    }
    LineEndIs(data, k, k + |line|);
    var read := data[k..k + |line| + 1];
    assert read == line + ['\n'];
    assert read[..|read| - 1] == line;
  }

  lemma PlainJoin(a: string, b: string)
    requires NoNewline(a) && Plain(b) && (a == [] || a[|a| - 1] != '\r')
    ensures Plain(a + b)
  {
    var s := a + b;
    assert forall k :: 0 <= k < |s| ==> s[k] == if k < |a| then a[k] else b[k - |a|];
  }

  lemma IdIsPlain(id: string, format: Format)
    requires IsId(id, format)
    ensures Plain(id) && NoNewline(id)
  {
  }

  lemma NoNewlineJoin(a: string, b: string)
    requires NoNewline(a) && NoNewline(b)
    ensures NoNewline(a + b)
  {
  }

  lemma LinesAreUnbroken(h: Header, format: Format, n: nat)
    requires Readable(h, format) && n < Lines(h)
    ensures NoNewline(Line(h, n))
  {
    var c, p, r := |h.capabilities|, |h.prerequisites|, |h.refs|;
    if 0 < n <= c {
      NoNewlineJoin("@", h.capabilities[n - 1]);
    } else if c < n <= c + p {
      var q := h.prerequisites[n - 1 - c];
      IdIsPlain(q.id, format);
      NoNewlineJoin("-", q.id);
      if q.comment.Some? { NoNewlineJoin(" ", q.comment.value); }
      NoNewlineJoin("-" + q.id, if q.comment.Some? then " " + q.comment.value else "");
    } else if c + p < n <= c + p + r {
      var q := h.refs[n - 1 - c - p];
      IdIsPlain(q.id, format);
      NoNewlineJoin(q.id, " ");
      NoNewlineJoin(q.id + " ", q.name);
    }
  }

  lemma LastOfJoin(a: string, b: string)
    requires Plain(b) && b != []
    ensures (a + b)[|a + b| - 1] != '\r'
  {
  }

  lemma LinesArePlain(h: Header, format: Format, n: nat)
    requires WellFormed(h, format) && n < Lines(h)
    ensures Plain(Line(h, n))
  {
    var c, p, r := |h.capabilities|, |h.prerequisites|, |h.refs|;
    LinesAreUnbroken(h, format, n);
    if 0 < n <= c {
      PlainJoin("@", h.capabilities[n - 1]);
    } else if c < n <= c + p {
      var q := h.prerequisites[n - 1 - c];
      IdIsPlain(q.id, format);
      PlainJoin("-", q.id);
      if q.comment.Some? {
        PlainJoin(" ", q.comment.value);
        LastOfJoin("-" + q.id, " " + q.comment.value);
      } else {
        assert "-" + q.id + "" == "-" + q.id;
      }
    } else if c + p < n <= c + p + r {
      var q := h.refs[n - 1 - c - p];
      LastOfJoin(q.id + " ", q.name);
    }
  }

  function Clamp(n: int, max: nat): nat {
    if n < 0 then 0 else if n < max then n else max
  }

  /** The part of a header that its first `n` lines hold. */
  function Part(h: Header, n: nat): Header {
    var c, p := |h.capabilities|, |h.prerequisites|;
    Header(h.version, h.prerequisites[..Clamp(n - 1 - c, p)], h.refs[..Clamp(n - 1 - c - p, |h.refs|)],
           h.capabilities[..Clamp(n - 1, c)])
  }

  lemma SignatureReads(h: Header)
    ensures First(Signature(h.version)) == Body(Part(h, 1), false)
  {
    assert Signature(V2)[3] != Signature(V3)[3];
  }

  lemma CapabilityReads(h: Header, format: Format, n: nat)
    requires Complete(h, format) && 0 < n <= |h.capabilities|
    ensures ReadLine(Line(h, n), Part(h, n), false, format) == Body(Part(h, n + 1), false)
  {
    var line, cap := Line(h, n), h.capabilities[n - 1];
    assert line[0] == '@' && line[1..] == cap;
    assert h.capabilities[..n] == h.capabilities[..n - 1] + [cap];
  }

  lemma PrerequisiteReads(h: Header, format: Format, n: nat)
    requires Complete(h, format) && |h.capabilities| < n <= |h.capabilities| + |h.prerequisites|
    ensures ReadLine(Line(h, n), Part(h, n), false, format) == Body(Part(h, n + 1), false)
  {
    var k := n - 1 - |h.capabilities|;
    var q := h.prerequisites[k];
    PrerequisiteParses(q, Part(h, n), format);
    assert Line(h, n)[0] == '-';
    assert h.prerequisites[..k + 1] == h.prerequisites[..k] + [q];
  }

  lemma PrerequisiteParses(q: Prerequisite, h: Header, format: Format)
    requires IsId(q.id, format)
    ensures ReadPrerequisite(PrerequisiteLine(q)[1..], h, false, format) ==
            Body(h.(prerequisites := h.prerequisites + [q]), false)
  {
    var rest := PrerequisiteLine(q)[1..];
    assert rest == q.id + if q.comment.Some? then " " + q.comment.value else "";
    assert rest[..HexLen(format)] == q.id;
    ParseIdInverse(q.id, format);
    if q.comment.Some? {
      assert rest[HexLen(format)] == ' ' && rest[HexLen(format) + 1..] == q.comment.value;
    }
  }

  lemma RefReads(h: Header, format: Format, n: nat)
    requires Complete(h, format) && |h.capabilities| + |h.prerequisites| < n < Lines(h) - 1
    ensures ReadLine(Line(h, n), Part(h, n), false, format) == Body(Part(h, n + 1), false)
  {
    var k := n - 1 - |h.capabilities| - |h.prerequisites|;
    var q := h.refs[k];
    RefParses(q, Part(h, n), format);
    assert Line(h, n)[0] == q.id[0];
    assert LowerHex(q.id[0]);
    assert h.refs[..k + 1] == h.refs[..k] + [q];
  }

  lemma RefParses(q: Ref, h: Header, format: Format)
    requires IsId(q.id, format) && q.name != []
    ensures ReadRef(RefLine(q), h, false, format) == Body(h.(refs := h.refs + [q]), false)
  {
    var line, n := RefLine(q), HexLen(format);
    assert line[..n] == q.id && line[n] == ' ' && line[n + 1..] == q.name;
    ParseIdInverse(q.id, format);
  }

  lemma BlankReads(h: Header, format: Format)
    requires Complete(h, format)
    ensures ReadBlank(Part(h, Lines(h) - 1), false) == Finished(h)
  {
    assert Part(h, Lines(h) - 1) == h;
  }

  function StateAt(h: Header, n: nat): State
    requires n <= Lines(h)
  {
    if n == 0 then Begin else if n < Lines(h) then Body(Part(h, n), false) else Finished(h)
  }

  lemma LineReadsTo(h: Header, format: Format, n: nat)
    requires Complete(h, format) && n < Lines(h)
    ensures Next(StateAt(h, n), Line(h, n), format) == StateAt(h, n + 1)
  {
    var c, p := |h.capabilities|, |h.prerequisites|;
    if n == 0 {
      SignatureReads(h);
    } else if n <= c {
      CapabilityReads(h, format, n);
    } else if n <= c + p {
      PrerequisiteReads(h, format, n);
    } else if n < Lines(h) - 1 {
      RefReads(h, format, n);
    } else {
      BlankReads(h, format);
    }
  }

  lemma {:induction false} TextHolds(data: string, lines: seq<string>, i: nat, n: nat)
    requires i < n <= |lines| && Has(data, 0, Text(lines, n))
    ensures Has(data, |Text(lines, i)|, lines[i] + ['\n'])
  {
    HasJoin(data, 0, Text(lines, n - 1), lines[n - 1] + ['\n']);
    if i < n - 1 { TextHolds(data, lines, i, n - 1); }
  }

  /** The written lines are read as the given ones. */
  predicate ReadAs(written: seq<string>, lines: seq<string>) {
    && |written| == |lines|
    && forall k :: 0 <= k < |lines| ==> NoNewline(written[k]) && Without(written[k], '\r') == lines[k]
  }

  lemma {:induction false} LinesStart(data: string, written: seq<string>, lines: seq<string>, n: nat)
    requires ReadAs(written, lines) && Has(data, 0, Text(written, |written|)) && n <= |lines|
    ensures LineStart(data, n) == |Text(written, n)|
  {
    if n > 0 {
      LinesStart(data, written, lines, n - 1);
      LineFromText(data, written, lines, n - 1);
    }
  }

  /** The `i`-th line of the data is the given one. */
  ghost predicate Presents(data: string, lines: seq<string>, i: nat) {
    i < |lines| && LineStart(data, i) < |data| && LineAt(data, i) == lines[i]
  }

  /** Written lines are read back. */
  lemma LinesRead(data: string, written: seq<string>, lines: seq<string>, n: nat)
    requires ReadAs(written, lines) && Has(data, 0, Text(written, |written|)) && n < |lines|
    ensures Presents(data, lines, n)
  {
    LinesStart(data, written, lines, n);
    LineFromText(data, written, lines, n);
  }

  lemma LineFromText(data: string, written: seq<string>, lines: seq<string>, n: nat)
    requires ReadAs(written, lines) && Has(data, 0, Text(written, |written|)) && n < |lines|
    ensures |Text(written, n)| < |data| && LineFrom(data, |Text(written, n)|) == lines[n]
    ensures LineEnd(data, |Text(written, n)|) == |Text(written, n + 1)|
  {
    TextHolds(data, written, n, |written|);
    LineReads(data, |Text(written, n)|, written[n]);
  }

  /** From one state, a line leads to the next one. */
  ghost predicate Leads(reader: Reader, lines: seq<string>, states: seq<State>, i: nat) {
    i < |lines| && |states| == |lines| + 1 && reader(states[i], lines[i]) == states[i + 1] && Running(states[i])
  }

  /** Reading given lines leads through given states. */
  lemma {:induction false} Follows(data: string, reader: Reader, lines: seq<string>, states: seq<State>, n: nat)
    requires |states| == |lines| + 1 && states[0] == Begin && n <= |lines|
    requires forall i :: 0 <= i < |lines| ==> Presents(data, lines, i)
    requires forall i :: 0 <= i < |lines| ==> Leads(reader, lines, states, i)
    ensures After(data, n, reader) == states[n]
  {
    if n > 0 {
      Follows(data, reader, lines, states, n - 1);
      assert Presents(data, lines, n - 1) && Leads(reader, lines, states, n - 1);
    }
  }

  lemma KeepsRunning(data: string, reader: Reader, lines: seq<string>, states: seq<State>)
    requires |states| == |lines| + 1 && states[0] == Begin
    requires forall i :: 0 <= i < |lines| ==> Presents(data, lines, i)
    requires forall i :: 0 <= i < |lines| ==> Leads(reader, lines, states, i)
    ensures RunningUpTo(data, reader, |lines|)
  {
    forall i | 0 <= i < |lines| ensures Continues(data, reader, i) {
      Follows(data, reader, lines, states, i);
      assert Presents(data, lines, i) && Leads(reader, lines, states, i);
    }
  }

  /** However its lines are written, a header is read from them, up to their end. */
  lemma LinesReadBack(data: string, written: seq<string>, h: Header, format: Format)
    requires Complete(h, format) && ReadAs(written, LinesOf(h)) && Has(data, 0, Text(written, |written|))
    ensures EndsAt(data, ReaderOf(format), Lines(h), h) && LineStart(data, Lines(h)) == |Text(written, |written|)|
  {
    var lines := LinesOf(h);
    var states := seq(Lines(h) + 1, n requires 0 <= n <= Lines(h) => StateAt(h, n));
    forall i | 0 <= i < |lines| ensures Presents(data, lines, i) { LinesRead(data, written, lines, i); }
    forall i | 0 <= i < |lines| ensures Leads(ReaderOf(format), lines, states, i) { LineReadsTo(h, format, i); }
    Follows(data, ReaderOf(format), lines, states, Lines(h));
    KeepsRunning(data, ReaderOf(format), lines, states);
    LinesStart(data, written, lines, Lines(h));
  }

  /** A well-formed header that was written ends where its text ends. */
  lemma ReadsBack(data: string, h: Header, format: Format)
    requires WellFormed(h, format) && Has(data, 0, Written(h))
    ensures EndsAt(data, ReaderOf(format), Lines(h), h) && LineStart(data, Lines(h)) == |Written(h)|
  {
    var lines := LinesOf(h);
    forall k | 0 <= k < |lines|
      ensures NoNewline(lines[k]) && Without(lines[k], '\r') == lines[k]
    {
      LinesArePlain(h, format, k);
    }
    LinesReadBack(data, lines, h, format);
  }

  /** What `WriteTo` writes: version 2 has no capabilities. */
  function Writable(h: Header): Header {
    if h.version == V2 then h.(capabilities := []) else h
  }

  lemma TextNext(lines: seq<string>, n: nat, line: string)
    requires n < |lines| && lines[n] == line
    ensures Text(lines, n + 1) == Text(lines, n) + (line + ['\n'])
  {
  }

  method WriteCapabilities(capabilities: seq<string>, before: string, ghost lines: seq<string>, ghost base: nat)
    returns (out: string)
    requires base + |capabilities| <= |lines|
          && forall i :: 0 <= i < |capabilities| ==> lines[base + i] == "@" + capabilities[i]
    requires before == Text(lines, base)
    ensures out == Text(lines, base + |capabilities|)
  {
    out := before;
    for i := 0 to |capabilities|
      invariant out == Text(lines, base + i)
    {
      TextNext(lines, base + i, "@" + capabilities[i]);
      out := out + (("@" + capabilities[i]) + ['\n']);
    }
  }

  method WritePrerequisites(prerequisites: seq<Prerequisite>, before: string, ghost lines: seq<string>, ghost base: nat)
    returns (out: string)
    requires base + |prerequisites| <= |lines|
    requires forall i :: 0 <= i < |prerequisites| ==> lines[base + i] == PrerequisiteLine(prerequisites[i])
    requires before == Text(lines, base)
    ensures out == Text(lines, base + |prerequisites|)
  {
    out := before;
    for i := 0 to |prerequisites|
      invariant out == Text(lines, base + i)
    {
      TextNext(lines, base + i, PrerequisiteLine(prerequisites[i]));
      out := out + (PrerequisiteLine(prerequisites[i]) + ['\n']);
    }
  }

  method WriteRefs(refs: seq<Ref>, before: string, ghost lines: seq<string>, ghost base: nat) returns (out: string)
    requires base + |refs| <= |lines| && forall i :: 0 <= i < |refs| ==> lines[base + i] == RefLine(refs[i])
    requires before == Text(lines, base)
    ensures out == Text(lines, base + |refs|)
  {
    out := before;
    for i := 0 to |refs|
      invariant out == Text(lines, base + i)
    {
      TextNext(lines, base + i, RefLine(refs[i]));
      out := out + (RefLine(refs[i]) + ['\n']);
    }
  }

  /** Where the lines of each kind are. */
  ghost predicate ByKind(h: Header, lines: seq<string>) {
    var c, p, r := |h.capabilities|, |h.prerequisites|, |h.refs|;
    && |lines| == Lines(h) && lines[0] == Signature(h.version) && lines[1 + c + p + r] == []
    && (forall i :: 0 <= i < c ==> lines[1 + i] == "@" + h.capabilities[i])
    && (forall i :: 0 <= i < p ==> lines[1 + c + i] == PrerequisiteLine(h.prerequisites[i]))
    && (forall i :: 0 <= i < r ==> lines[1 + c + p + i] == RefLine(h.refs[i]))
  }

  lemma LinesByKind(h: Header)
    ensures ByKind(h, LinesOf(h))
  {
  }

  method WriteSignature(version: Version, ghost lines: seq<string>) returns (out: string)
    requires lines != [] && lines[0] == Signature(version)
    ensures out == Text(lines, 1)
  {
    out := Signature(version) + ['\n'];
    TextNext(lines, 0, Signature(version));
    assert Text(lines, 0) + out == out;
  }

  method WriteAll(h: Header, ghost lines: seq<string>) returns (out: string)
    requires ByKind(h, lines)
    ensures out == Text(lines, |lines|)
  {
    out := WriteSignature(h.version, lines);
    out := WriteCapabilities(h.capabilities, out, lines, 1);
    out := WritePrerequisites(h.prerequisites, out, lines, 1 + |h.capabilities|);
    out := WriteRefs(h.refs, out, lines, 1 + |h.capabilities| + |h.prerequisites|);
    TextNext(lines, |lines| - 1, []);
    assert [] + ['\n'] == ['\n'];
    out := out + ['\n'];
  }

  method WriteTo(h: Header) returns (out: string)
    ensures out == Written(Writable(h))
  {
    LinesByKind(Writable(h));
    out := WriteAll(Writable(h), LinesOf(Writable(h)));
  }

  // -------------------------------------------------------------------------------------------------
  // Only well-formed headers are read back.
  // -------------------------------------------------------------------------------------------------

  /** The number of bytes of the given lines with their newlines. */
  function Size(lines: seq<string>): nat {
    if lines == [] then 0 else Size(lines[..|lines| - 1]) + |lines[|lines| - 1]| + 1
  }

  lemma SizeNext(lines: seq<string>, line: string)
    ensures Size(lines + [line]) == Size(lines) + |line| + 1
  {
    assert (lines + [line])[..|lines|] == lines;
  }

  lemma {:induction false} SizeJoin(a: seq<string>, b: seq<string>)
    ensures Size(a + b) == Size(a) + Size(b)
  {
    if b == [] {
      assert a + b == a;
    } else {
      var init, last := b[..|b| - 1], b[|b| - 1];
      SizeJoin(a, init);
      SizeNext(a + init, last);
      assert a + b == (a + init) + [last];
    }
  }

  lemma {:induction false} SizeOfText(lines: seq<string>, n: nat)
    requires n <= |lines|
    ensures |Text(lines, n)| == Size(lines[..n])
  {
    if n > 0 {
      SizeOfText(lines, n - 1);
      assert lines[..n][..n - 1] == lines[..n - 1];
    }
  }

  function CapabilityLines(h: Header): seq<string> {
    seq(|h.capabilities|, k requires 0 <= k < |h.capabilities| => "@" + h.capabilities[k])
  }

  function PrerequisiteLines(h: Header): seq<string> {
    seq(|h.prerequisites|, k requires 0 <= k < |h.prerequisites| => PrerequisiteLine(h.prerequisites[k]))
  }

  function RefLines(h: Header): seq<string> {
    seq(|h.refs|, k requires 0 <= k < |h.refs| => RefLine(h.refs[k]))
  }

  /** The size of a header without its blank line. */
  function HeadSize(h: Header): nat {
    |Signature(h.version)| + 1 + Size(CapabilityLines(h)) + Size(PrerequisiteLines(h)) + Size(RefLines(h))
  }

  lemma SizeOfKinds(first: string, c: seq<string>, p: seq<string>, r: seq<string>)
    ensures Size([first] + c + p + r + [[]]) == |first| + 1 + Size(c) + Size(p) + Size(r) + 1
  {
    SizeNext([first] + c + p + r, []);
    SizeJoin([first] + c + p, r);
    SizeJoin([first] + c, p);
    SizeJoin([first], c);
  }

  lemma WrittenSize(h: Header)
    ensures |Written(h)| == HeadSize(h) + 1
  {
    var c, p, r := CapabilityLines(h), PrerequisiteLines(h), RefLines(h);
    SizeOfText(LinesOf(h), Lines(h));
    assert LinesOf(h)[..Lines(h)] == LinesOf(h);
    assert LinesOf(h) == [Signature(h.version)] + c + p + r + [[]];
    SizeOfKinds(Signature(h.version), c, p, r);
  }

  lemma CapabilityAdds(h: Header, cap: string)
    ensures HeadSize(h.(capabilities := h.capabilities + [cap])) == HeadSize(h) + |"@" + cap| + 1
  {
    var g := h.(capabilities := h.capabilities + [cap]);
    assert CapabilityLines(g) == CapabilityLines(h) + ["@" + cap];
    assert PrerequisiteLines(g) == PrerequisiteLines(h) && RefLines(g) == RefLines(h);
    SizeNext(CapabilityLines(h), "@" + cap);
  }

  lemma PrerequisiteAdds(h: Header, q: Prerequisite)
    ensures HeadSize(h.(prerequisites := h.prerequisites + [q])) == HeadSize(h) + |PrerequisiteLine(q)| + 1
  {
    var g := h.(prerequisites := h.prerequisites + [q]);
    assert PrerequisiteLines(g) == PrerequisiteLines(h) + [PrerequisiteLine(q)];
    assert CapabilityLines(g) == CapabilityLines(h) && RefLines(g) == RefLines(h);
    SizeNext(PrerequisiteLines(h), PrerequisiteLine(q));
  }

  lemma RefAdds(h: Header, q: Ref)
    ensures HeadSize(h.(refs := h.refs + [q])) == HeadSize(h) + |RefLine(q)| + 1
  {
    var g := h.(refs := h.refs + [q]);
    assert RefLines(g) == RefLines(h) + [RefLine(q)];
    assert CapabilityLines(g) == CapabilityLines(h) && PrerequisiteLines(g) == PrerequisiteLines(h);
    SizeNext(RefLines(h), RefLine(q));
  }

  /** The header of a state, the bytes it needs, and the blank line behind the capabilities. */
  ghost predicate Grows(st: State, h: Header, split: bool, line: string, format: Format) {
    !st.Begin? && !st.Finished? && (st.Body? ==>
      && (split ==> st.split) && Sound(st.header, format) && (PlainFields(h) && Plain(line) ==> PlainFields(st.header))
      && (UnbrokenFields(h) && NoNewline(line) ==> UnbrokenFields(st.header))
      && HeadSize(st.header) + (if st.split then 1 else 0) == HeadSize(h) + (if split then 1 else 0) + |line| + 1)
  }

  lemma PlainSuffix(s: string, k: nat)
    requires NoNewline(s) && k <= |s|
    ensures NoNewline(s[k..]) && (Plain(s) ==> Plain(s[k..]))
  {
    var t := s[k..];
    assert forall x :: 0 <= x < |t| ==> t[x] == s[k + x];
  }

  lemma ParsedIsId(hex: string, format: Format)
    requires |hex| == HexLen(format) && ParseId(hex).Some?
    ensures IsId(ParseId(hex).value, format)
  {
  }

  lemma CapabilityAdded(cap: string, line: string, h: Header, split: bool, format: Format)
    requires Sound(h, format) && h.version == V3 && CheckCapability(cap, format).None?
    requires |line| == |cap| + 1 && (Plain(line) ==> Plain(cap)) && (NoNewline(line) ==> NoNewline(cap))
    ensures Grows(Body(h.(capabilities := h.capabilities + [cap]), split), h, split, line, format)
  {
    CapabilityAdds(h, cap);
  }

  lemma CapabilityGrows(line: string, h: Header, split: bool, format: Format)
    requires Sound(h, format) && h.version == V3 && line != []
    requires CheckCapability(line[1..], format).None?
    ensures Grows(Body(h.(capabilities := h.capabilities + [line[1..]]), split), h, split, line, format)
  {
    if NoNewline(line) { PlainSuffix(line, 1); }
    CapabilityAdded(line[1..], line, h, split, format);
  }

  lemma PrerequisiteAdded(q: Prerequisite, line: string, h: Header, split: bool, format: Format)
    requires Sound(h, format) && |h.prerequisites| + |h.refs| < MAX_ENTRIES && IsId(q.id, format)
    requires |line| == |PrerequisiteLine(q)| && (q.comment.Some? && Plain(line) ==> Plain(q.comment.value))
    requires q.comment.Some? && NoNewline(line) ==> NoNewline(q.comment.value)
    ensures Grows(Body(h.(prerequisites := h.prerequisites + [q]), split), h, split, line, format)
  {
    PrerequisiteAdds(h, q);
  }

  lemma PrerequisiteGrows(line: string, h: Header, split: bool, format: Format)
    requires Sound(h, format) && |h.prerequisites| + |h.refs| < MAX_ENTRIES && line != []
    ensures Grows(ReadPrerequisite(line[1..], h, split, format), h, split, line, format)
  {
    var n, rest := HexLen(format), line[1..];
    if ReadPrerequisite(rest, h, split, format).Body? {
      var id := ParseId(rest[..n]).value;
      ParsedIsId(rest[..n], format);
      if |rest| == n {
        PrerequisiteAdded(Prerequisite(id, None), line, h, split, format);
      } else {
        if NoNewline(line) { PlainSuffix(line, n + 2); }
        assert line[n + 2..] == rest[n + 1..];
        PrerequisiteAdded(Prerequisite(id, Some(rest[n + 1..])), line, h, split, format);
      }
    }
  }

  lemma RefAdded(q: Ref, line: string, h: Header, split: bool, format: Format)
    requires Sound(h, format) && |h.prerequisites| + |h.refs| < MAX_ENTRIES && IsId(q.id, format) && q.name != []
    requires |line| == |RefLine(q)| && (Plain(line) ==> Plain(q.name)) && (NoNewline(line) ==> NoNewline(q.name))
    ensures Grows(Body(h.(refs := h.refs + [q]), split), h, split, line, format)
  {
    RefAdds(h, q);
  }

  lemma RefGrows(line: string, h: Header, split: bool, format: Format)
    requires Sound(h, format) && |h.prerequisites| + |h.refs| < MAX_ENTRIES
    ensures Grows(ReadRef(line, h, split, format), h, split, line, format)
  {
    var n := HexLen(format);
    if ReadRef(line, h, split, format).Body? {
      ParsedIsId(line[..n], format);
      if NoNewline(line) { PlainSuffix(line, n + 1); }
      RefAdded(Ref(ParseId(line[..n]).value, line[n + 1..]), line, h, split, format);
    }
  }

  /** A line adds what it holds, and as many bytes as it has. */
  lemma LineGrows(line: string, h: Header, split: bool, format: Format)
    requires Sound(h, format) && line != []
    ensures Grows(ReadLine(line, h, split, format), h, split, line, format)
  {
    if |h.prerequisites| + |h.refs| >= MAX_ENTRIES {
    } else if line[0] == '-' {
      PrerequisiteGrows(line, h, split, format);
    } else if h.version == V3 && NoEntries(h) && line[0] == '@' {
      if CheckCapability(line[1..], format).None? { CapabilityGrows(line, h, split, format); }
    } else {
      RefGrows(line, h, split, format);
    }
  }

  lemma {:induction false} LineEndsThere(data: string, k: nat)
    requires k < |data|
    ensures var e := LineEnd(data, k);
            (e < |data| ==> data[e - 1] == '\n') && forall x :: k <= x < e - 1 ==> data[x] != '\n'
    decreases |data| - k
  {
    if data[k] != '\n' && k + 1 < |data| { LineEndsThere(data, k + 1); }
  }

  /** A line takes at least its own bytes and a newline, and takes no more only if it is plain. */
  lemma LineTakes(data: string, k: nat)
    requires k < |data| && data[LineEnd(data, k) - 1] == '\n'
    ensures NoNewline(LineFrom(data, k)) && k + |LineFrom(data, k)| + 1 <= LineEnd(data, k)
    ensures k + |LineFrom(data, k)| + 1 == LineEnd(data, k) ==> Plain(LineFrom(data, k))
  {
    var e := LineEnd(data, k);
    LineEndsThere(data, k);
    var raw := data[k..e];
    var line := Without(raw, '\n');
    assert line == data[k..e - 1];
    assert NoNewline(line);
  }

  /** What has been read of a header is sound, and took no more bytes than needed only if it is plain. */
  ghost predicate Taken(st: State, used: nat, format: Format) {
    match st
    case Begin => used == 0
    case Body(h, split) =>
      && Sound(h, format) && UnbrokenFields(h) && used >= HeadSize(h) + (if split then 1 else 0)
      && (used == HeadSize(h) ==> PlainFields(h))
    case Finished(h) =>
      && Readable(h, format) && used >= HeadSize(h) + 1
      && (used == HeadSize(h) + 1 ==> PlainFields(h))
    case Failed(_) => true
  }

  lemma EmptySize(version: Version)
    ensures HeadSize(Header(version, [], [], [])) == |Signature(version)| + 1
  {
    var h := Header(version, [], [], []);
    assert CapabilityLines(h) == [] && PrerequisiteLines(h) == [] && RefLines(h) == [];
  }

  lemma SignatureTaken(line: string, end: nat, format: Format)
    requires |line| + 1 <= end
    ensures Taken(First(line), end, format)
  {
    if line == Signature(V2) {
      EmptySize(V2);
    } else if line == Signature(V3) {
      EmptySize(V3);
    }
  }

  lemma BlankTaken(k: nat, end: nat, h: Header, split: bool, format: Format)
    requires k < end && Taken(Body(h, split), k, format)
    ensures Taken(ReadBlank(h, split), end, format)
  {
  }

  /** The line between `k` and `end` takes its own bytes and a newline, and no more only if it is plain. */
  predicate Takes(line: string, k: nat, end: nat) {
    NoNewline(line) && k + |line| + 1 <= end && (k + |line| + 1 == end ==> Plain(line))
  }

  lemma GrownTaken(st: State, k: nat, end: nat, h: Header, split: bool, line: string, format: Format)
    requires Grows(st, h, split, line, format) && Taken(Body(h, split), k, format)
    requires Takes(line, k, end)
    ensures Taken(st, end, format)
  {
  }

  lemma LineTaken(line: string, k: nat, end: nat, h: Header, split: bool, format: Format)
    requires Takes(line, k, end) && Taken(Body(h, split), k, format)
    ensures Taken(ReadLine(line, h, split, format), end, format)
  {
    if line == [] {
      BlankTaken(k, end, h, split, format);
    } else {
      LineGrows(line, h, split, format);
      GrownTaken(ReadLine(line, h, split, format), k, end, h, split, line, format);
    }
  }

  lemma NextTaken(line: string, k: nat, end: nat, st: State, format: Format)
    requires Takes(line, k, end) && Running(st) && Taken(st, k, format)
    ensures Taken(Next(st, line, format), end, format)
  {
    if st.Begin? {
      SignatureTaken(line, end, format);
    } else {
      LineTaken(line, k, end, st.header, st.split, format);
    }
  }

  /** Every line takes its bytes if more data follows, and a blank line does so in any case. */
  lemma LineFits(data: string, k: nat)
    requires k < |data| && (LineEnd(data, k) < |data| || LineFrom(data, k) == [])
    ensures Takes(LineFrom(data, k), k, LineEnd(data, k))
  {
    if LineEnd(data, k) < |data| {
      LineEndsThere(data, k);
      LineTakes(data, k);
    }
  }

  lemma LastIsBlank(st: State, line: string, format: Format)
    requires Running(st) && Next(st, line, format).Finished?
    ensures line == []
  {
  }

  /** What one line does to the state and the place. */
  lemma LineSteps(data: string, reader: Reader, i: nat, format: Format)
    requires reader == ReaderOf(format)
    ensures After(data, i + 1, reader) == Next(After(data, i, reader), LineAt(data, i), format)
    ensures LineStart(data, i + 1) == LineEnd(data, LineStart(data, i))
  {
  }

  /** More data follows every line of a header but the last, which is blank. */
  lemma LineIsFollowed(data: string, reader: Reader, i: nat, last: bool)
    requires Continues(data, reader, i) && if last then LineAt(data, i) == [] else Continues(data, reader, i + 1)
    ensures Takes(LineAt(data, i), LineStart(data, i), LineEnd(data, LineStart(data, i)))
  {
    LineFits(data, LineStart(data, i));
  }

  /** One line of a header that was read. */
  ghost predicate Step(data: string, reader: Reader, i: nat, format: Format) {
    && Running(After(data, i, reader))
    && Next(After(data, i, reader), LineAt(data, i), format) == After(data, i + 1, reader)
    && Takes(LineAt(data, i), LineStart(data, i), LineStart(data, i + 1))
  }

  lemma LineIsStep(data: string, reader: Reader, i: nat, last: bool, format: Format)
    requires reader == ReaderOf(format) && Continues(data, reader, i)
    requires if last then After(data, i + 1, reader).Finished? else Continues(data, reader, i + 1)
    ensures Step(data, reader, i, format)
  {
    LineSteps(data, reader, i, format);
    if last { LastIsBlank(After(data, i, reader), LineAt(data, i), format); }
    LineIsFollowed(data, reader, i, last);
  }

  lemma AllSteps(data: string, reader: Reader, n: nat, h: Header, i: nat, format: Format)
    requires reader == ReaderOf(format) && EndsAt(data, reader, n, h) && i < n
    ensures Step(data, reader, i, format)
  {
    assert Continues(data, reader, i);
    assert i + 1 < n ==> Continues(data, reader, i + 1);
    LineIsStep(data, reader, i, i + 1 == n, format);
  }

  /** From one state and place, a line leads to the next ones. */
  ghost predicate Consumes(states: seq<State>, ends: seq<nat>, lines: seq<string>, i: nat, format: Format) {
    && i < |lines| && |states| == |ends| == |lines| + 1 && Running(states[i])
    && Next(states[i], lines[i], format) == states[i + 1] && Takes(lines[i], ends[i], ends[i + 1])
  }

  lemma {:induction false} AllTaken(states: seq<State>, ends: seq<nat>, lines: seq<string>, n: nat, format: Format)
    requires |states| == |ends| == |lines| + 1 && n <= |lines| && states[0] == Begin && ends[0] == 0
    requires forall i :: 0 <= i < |lines| ==> Consumes(states, ends, lines, i, format)
    ensures Taken(states[n], ends[n], format)
  {
    if n > 0 {
      AllTaken(states, ends, lines, n - 1, format);
      assert Consumes(states, ends, lines, n - 1, format);
      NextTaken(lines[n - 1], ends[n - 1], ends[n], states[n - 1], format);
    }
  }

  /** The state and the place in front of the `i`-th line, and the line. */
  ghost predicate Traces(data: string, reader: Reader, states: seq<State>, ends: seq<nat>, lines: seq<string>, i: nat) {
    && |states| == |ends| == |lines| + 1 && i <= |lines| && states[i] == After(data, i, reader)
    && ends[i] == LineStart(data, i) && (i < |lines| ==> lines[i] == LineAt(data, i))
  }

  lemma MakeTrace(data: string, reader: Reader, n: nat) returns (states: seq<State>, ends: seq<nat>, lines: seq<string>)
    ensures |lines| == n && forall i :: 0 <= i <= n ==> Traces(data, reader, states, ends, lines, i)
  {
    states := seq(n + 1, i requires 0 <= i <= n => After(data, i, reader));
    ends := seq(n + 1, i requires 0 <= i <= n => LineStart(data, i));
    lines := seq(n, i requires 0 <= i < n => LineAt(data, i));
  }

  lemma TraceConsumes(data: string, reader: Reader, states: seq<State>, ends: seq<nat>, lines: seq<string>, i: nat,
                      format: Format)
    requires i < |lines| && Traces(data, reader, states, ends, lines, i)
          && Traces(data, reader, states, ends, lines, i + 1)
    requires Step(data, reader, i, format)
    ensures Consumes(states, ends, lines, i, format)
  {
  }

  /** What a header that was read has taken. */
  lemma HeaderTaken(data: string, reader: Reader, n: nat, format: Format)
    requires forall i :: 0 <= i < n ==> Step(data, reader, i, format)
    ensures Taken(After(data, n, reader), LineStart(data, n), format)
  {
    var states, ends, lines := MakeTrace(data, reader, n);
    forall i | 0 <= i < n
      ensures Consumes(states, ends, lines, i, format)
    {
      assert Traces(data, reader, states, ends, lines, i) && Traces(data, reader, states, ends, lines, i + 1);
      TraceConsumes(data, reader, states, ends, lines, i, format);
    }
    assert Traces(data, reader, states, ends, lines, 0) && Traces(data, reader, states, ends, lines, n);
    AllTaken(states, ends, lines, n, format);
  }

  /** Whatever was read took at least the bytes that writing it takes, and is well-formed if it took no more. */
  lemma ReadIsReadable(data: string, n: nat, h: Header, format: Format)
    requires EndsAt(data, ReaderOf(format), n, h)
    ensures Readable(h, format) && LineStart(data, n) >= |Written(h)|
    ensures LineStart(data, n) == |Written(h)| ==> WellFormed(h, format)
  {
    forall i | 0 <= i < n
      ensures Step(data, ReaderOf(format), i, format)
    {
      AllSteps(data, ReaderOf(format), n, h, i, format);
    }
    HeaderTaken(data, ReaderOf(format), n, format);
    WrittenSize(h);
  }

  /** The lines of a header with a carriage return at their end. */
  function ReturnedLines(h: Header): seq<string> {
    seq(Lines(h), n requires 0 <= n < Lines(h) => Line(h, n) + ['\r'])
  }

  /** The headers that are read from some data are exactly these. */
  lemma ReadableExactly(h: Header, format: Format)
    ensures Readable(h, format) <==> exists data, n :: EndsAt(data, ReaderOf(format), n, h)
  {
    if Readable(h, format) {
      var written := ReturnedLines(h);
      forall k | 0 <= k < |written|
        ensures NoNewline(written[k]) && Without(written[k], '\r') == LinesOf(h)[k]
      {
        LinesAreUnbroken(h, format, k);
        assert written[k][..|written[k]| - 1] == Line(h, k);
      }
      LinesReadBack(Text(written, |written|), written, h, format);
    }
    if data, n :| EndsAt(data, ReaderOf(format), n, h) {
      ReadIsReadable(data, n, h, format);
    }
  }

  /** Exactly the well-formed headers, in front of any pack, are read back with the place where the pack begins. */
  method RoundTrip(h: Header, pack: string, format: Format) returns (r: Result<(Header, nat), Error>)
    ensures r == Ok((h, |Written(Writable(h))|)) <==> WellFormed(h, format)
  {
    var out := WriteTo(h);
    var data := out + pack;
    assert Has(data, 0, out);
    r := Decode(data, format);
    if WellFormed(h, format) { ReadsBack(data, h, format); }
    if r.Ok? {
      ghost var n :| EndsAt(data, ReaderOf(format), n, r.value.0) && r.value.1 == LineStart(data, n);
      if WellFormed(h, format) { EndsOnce(data, ReaderOf(format), n, r.value.0, Lines(h), h); }
      if r.value == (h, |out|) { ReadIsReadable(data, n, h, format); }
    }
  }
}
