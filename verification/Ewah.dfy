/**
 * `gix-bitmap/src/ewah.rs`: bitmaps made of runs and literal words. A word is a natural number below 2^64 here, and
 * bit `i` of it is its `i`-th binary digit.
 */
module Ewah {
  import opened Bytes
  import opened Sequences
  import opened Wrappers

  const U32: nat := 0x1_0000_0000
  const U64: nat := 0x1_0000_0000_0000_0000
  const LITERAL_UNIT: nat := 2 * U32

  datatype Bitmap = Bitmap(numBits: nat, words: seq<nat>, rlw: nat)

  // -------------------------------------------------------------------------------------------------
  // Bits of words.
  // -------------------------------------------------------------------------------------------------

  function Pow2(n: nat): (p: nat)
    ensures p > 0
  {
    if n == 0 then 1 else 2 * Pow2(n - 1)
  }

  predicate Bit(w: nat, i: nat) {
    if i == 0 then w % 2 == 1 else Bit(w / 2, i - 1)
  }

  function Bits(w: nat, n: nat): seq<bool> {
    seq(n, i requires 0 <= i < n => Bit(w, i))
  }

  /** The number whose binary digits are the given bits from `k` on. */
  function Digits(bits: seq<bool>, k: nat, n: nat): (w: nat)
    requires k <= n <= |bits|
    ensures w < Pow2(n - k)
    decreases n - k
  {
    if k == n then 0 else (if bits[k] then 1 else 0) + 2 * Digits(bits, k + 1, n)
  }

  lemma {:induction false} DigitsAreBits(bits: seq<bool>, k: nat, n: nat, i: nat)
    requires k <= n <= |bits| && i < n - k
    ensures Bit(Digits(bits, k, n), i) == bits[k + i]
    decreases i
  {
    if i > 0 { DigitsAreBits(bits, k + 1, n, i - 1); }
  }

  lemma {:induction false} DigitsSplit(bits: seq<bool>, k: nat, m: nat)
    requires k <= m < |bits|
    ensures Digits(bits, k, m + 1) == Digits(bits, k, m) + if bits[m] then Pow2(m - k) else 0
    decreases m - k
  {
    if k < m { DigitsSplit(bits, k + 1, m); }
  }

  /** The word of a chunk of bits: setting a bit above all others adds its power of two. */
  method ChunkWord(bits: seq<bool>, from: nat, to: nat) returns (word: nat)
    requires from <= to <= |bits|
    ensures word == Digits(bits, from, to)
  {
    word := 0;
    for i := from to to
      invariant word == Digits(bits, from, i)
    {
      DigitsSplit(bits, from, i);
      if bits[i] { word := word + Pow2(i - from); }
    }
  }

  // -------------------------------------------------------------------------------------------------
  // Running length words.
  // -------------------------------------------------------------------------------------------------

  predicate RunBit(w: nat) { w % 2 == 1 }

  function RunLength(w: nat): nat { w / 2 % U32 * 64 }

  function Literals(w: nat): nat { w / LITERAL_UNIT }

  /** From `pos` on, every running length word is followed by the literal words it announces. */
  predicate WellFormed(words: seq<nat>, pos: nat)
    requires pos <= |words|
    decreases |words| - pos
  {
    pos == |words| || (pos + 1 + Literals(words[pos]) <= |words| && WellFormed(words, pos + 1 + Literals(words[pos])))
  }

  predicate Valid(b: Bitmap) {
    if b.words == [] then b.rlw == 0 else b.rlw < |b.words| && WellFormed(b.words, 0)
  }

  method ValidateWords(words: seq<nat>, rlw: nat) returns (ok: bool)
    ensures ok <==> Valid(Bitmap(0, words, rlw))
  {
    if words == [] { return rlw == 0; }
    if rlw >= |words| { return false; }
    var pos := 0;
    while pos < |words|
      invariant pos <= |words| && WellFormed(words, 0) == WellFormed(words, pos)
    {
      pos := pos + 1 + Literals(words[pos]);
      if pos > |words| { return false; }
    }
    ok := true;
  }

  // -------------------------------------------------------------------------------------------------
  // What a bitmap stands for.
  // -------------------------------------------------------------------------------------------------

  /** The number of bits a literal word at `index` stands for. */
  function Width(index: nat, num: nat): nat {
    if num - index < 64 then (if index < num then num - index else 0) else 64
  }

  /** The next `k` literal words start within the bitmap and set no bit beyond its end. */
  predicate LiteralsFit(words: seq<nat>, p: nat, k: nat, index: nat, num: nat)
    requires p + k <= |words|
    decreases k
  {
    k == 0 || (index < num && (Width(index, num) < 64 ==> words[p] < Pow2(Width(index, num)))
               && LiteralsFit(words, p + 1, k - 1, index + Width(index, num), num))
  }

  function LiteralBits(words: seq<nat>, p: nat, k: nat, index: nat, num: nat): seq<bool>
    requires p + k <= |words|
    decreases k
  {
    if k == 0 then []
    else Bits(words[p], Width(index, num)) + LiteralBits(words, p + 1, k - 1, index + Width(index, num), num)
  }

  function Run(bit: bool, n: nat): seq<bool> {
    seq(n, _ => bit)
  }

  /** The bits of a running length word and of its literal words. */
  function Group(words: seq<nat>, pos: nat, index: nat, num: nat): seq<bool>
    requires pos < |words| && pos + 1 + Literals(words[pos]) <= |words|
  {
    var w := words[pos];
    Run(RunBit(w), RunLength(w)) + LiteralBits(words, pos + 1, Literals(w), index + RunLength(w), num)
  }

  predicate GroupFits(words: seq<nat>, pos: nat, index: nat, num: nat)
    requires pos < |words| && pos + 1 + Literals(words[pos]) <= |words|
  {
    var w := words[pos];
    index + RunLength(w) <= num && LiteralsFit(words, pos + 1, Literals(w), index + RunLength(w), num)
  }

  predicate Fits(words: seq<nat>, pos: nat, index: nat, num: nat)
    requires pos <= |words| && WellFormed(words, pos)
    decreases |words| - pos
  {
    pos == |words|
    || (GroupFits(words, pos, index, num)
        && Fits(words, pos + 1 + Literals(words[pos]), index + |Group(words, pos, index, num)|, num))
  }

  /** The run-length expansion of a bitmap from the word at `pos` on. */
  function Expansion(words: seq<nat>, pos: nat, index: nat, num: nat): seq<bool>
    requires pos <= |words| && WellFormed(words, pos)
    decreases |words| - pos
  {
    if pos == |words| then []
    else
      var group := Group(words, pos, index, num);
      group + Expansion(words, pos + 1 + Literals(words[pos]), index + |group|, num)
  }

  /** The places of the set bits among the first `n`, counted from `offset`. */
  function Ones(bits: seq<bool>, n: nat, offset: nat): seq<nat>
    requires n <= |bits|
  {
    if n == 0 then [] else Ones(bits, n - 1, offset) + if bits[n - 1] then [offset + n - 1] else []
  }

  lemma {:induction false} OnesPrefix(a: seq<bool>, b: seq<bool>, n: nat, offset: nat)
    requires n <= |a|
    ensures Ones(a + b, n, offset) == Ones(a, n, offset)
  {
    if n > 0 { OnesPrefix(a, b, n - 1, offset); }
  }

  lemma {:induction false} OnesJoin(a: seq<bool>, b: seq<bool>, n: nat, offset: nat)
    requires n <= |b|
    ensures Ones(a + b, |a| + n, offset) == Ones(a, |a|, offset) + Ones(b, n, offset + |a|)
  {
    if n == 0 {
      OnesPrefix(a, b, |a|, offset);
    } else {
      OnesJoin(a, b, n - 1, offset);
      assert (a + b)[|a| + n - 1] == b[n - 1];
    }
  }

  /** Exactly the places of the set bits, in ascending order. */
  lemma {:induction false} OnesAreExact(bits: seq<bool>, n: nat)
    requires n <= |bits|
    ensures forall i :: i in Ones(bits, n, 0) <==> 0 <= i < n && bits[i]
    ensures Ascending(Ones(bits, n, 0), n)
  {
    if n > 0 { OnesAreExact(bits, n - 1); }
  }

  ghost predicate Ascending(s: seq<nat>, limit: nat) {
    && (forall x, y :: 0 <= x < y < |s| ==> s[x] < s[y])
    && (forall x :: 0 <= x < |s| ==> s[x] < limit)
  }

  // -------------------------------------------------------------------------------------------------
  // Visiting the set bits.
  // -------------------------------------------------------------------------------------------------

  ghost predicate Accepts(f: nat -> bool, places: seq<nat>) {
    forall k :: 0 <= k < |places| ==> f(places[k])
  }

  /** What is visited in a stretch of bits, up to the first refusal. */
  ghost predicate Visited(f: nat -> bool, before: seq<nat>, bits: seq<bool>, n: nat, index: nat, ok: bool,
                          visited: seq<nat>)
    requires n <= |bits|
  {
    var places := Ones(bits, n, index);
    if ok then visited == before + places && Accepts(f, places)
    else before <= visited <= before + places && !Accepts(f, places)
  }

  method VisitRun(f: nat -> bool, before: seq<nat>, len: nat, index: nat) returns (ok: bool, visited: seq<nat>)
    ensures Visited(f, before, Run(true, len), len, index, ok, visited)
  {
    visited := before;
    for i := 0 to len
      invariant Visited(f, before, Run(true, len), i, index, true, visited)
    {
      visited := visited + [index + i];
      if !f(index + i) {
        Refused(f, before, Run(true, len), i, index, visited);
        return false, visited;
      }
    }
    ok := true;
  }

  lemma Refused(f: nat -> bool, before: seq<nat>, bits: seq<bool>, i: nat, index: nat, visited: seq<nat>)
    requires i < |bits| && bits[i] && !f(index + i) && visited == before + Ones(bits, i, index) + [index + i]
    ensures Visited(f, before, bits, |bits|, index, false, visited)
  {
    OnesGrow(bits, i + 1, |bits|, index);
    var places := Ones(bits, |bits|, index);
    assert visited == before + Ones(bits, i + 1, index);
    assert places[|Ones(bits, i, index)|] == index + i;
  }

  lemma {:induction false} OnesGrow(bits: seq<bool>, i: nat, n: nat, offset: nat)
    requires i <= n <= |bits|
    ensures Ones(bits, i, offset) <= Ones(bits, n, offset)
  {
    if i < n { OnesGrow(bits, i, n - 1, offset); }
  }

  method VisitLiteral(f: nat -> bool, before: seq<nat>, w: nat, width: nat, index: nat)
    returns (ok: bool, visited: seq<nat>)
    ensures Visited(f, before, Bits(w, width), width, index, ok, visited)
  {
    visited := before;
    for i := 0 to width
      invariant Visited(f, before, Bits(w, width), i, index, true, visited)
    {
      if Bit(w, i) {
        visited := visited + [index + i];
        if !f(index + i) {
          Refused(f, before, Bits(w, width), i, index, visited);
          return false, visited;
        }
      }
    }
    ok := true;
  }

  /** The walk has come to `pos`: what lies behind is `done`, and the rest decides about the whole. */
  ghost predicate Walked(b: Bitmap, f: nat -> bool, pos: nat, done: seq<bool>, visited: seq<nat>)
    requires WellFormed(b.words, 0)
  {
    && pos <= |b.words| && WellFormed(b.words, pos)
    && Fits(b.words, 0, 0, b.numBits) == Fits(b.words, pos, |done|, b.numBits)
    && Expansion(b.words, 0, 0, b.numBits) == done + Expansion(b.words, pos, |done|, b.numBits)
    && visited == Ones(done, |done|, 0) && Accepts(f, visited)
  }

  lemma WalkedGroup(b: Bitmap, f: nat -> bool, pos: nat, done: seq<bool>, visited: seq<nat>, visited': seq<nat>)
    requires WellFormed(b.words, 0) && Walked(b, f, pos, done, visited) && pos < |b.words|
    requires var group := Group(b.words, pos, |done|, b.numBits);
      Visited(f, visited, group, |group|, |done|, true, visited')
    requires GroupFits(b.words, pos, |done|, b.numBits)
    ensures Walked(b, f, pos + 1 + Literals(b.words[pos]), done + Group(b.words, pos, |done|, b.numBits), visited')
  {
    var group := Group(b.words, pos, |done|, b.numBits);
    OnesJoin(done, group, |group|, 0);
    AcceptsJoin(f, visited, Ones(group, |group|, |done|));
    Regroup(done, group, Expansion(b.words, pos + 1 + Literals(b.words[pos]), |done| + |group|, b.numBits));
  }

  lemma AcceptsJoin(f: nat -> bool, x: seq<nat>, y: seq<nat>)
    requires Accepts(f, x) && Accepts(f, y)
    ensures Accepts(f, x + y)
  {}

  /** A refusal at the beginning is a refusal of the whole. */
  lemma PrefixRefused(f: nat -> bool, a: seq<bool>, b: seq<bool>, offset: nat)
    requires !Accepts(f, Ones(a, |a|, offset))
    ensures !Accepts(f, Ones(a + b, |a + b|, offset))
  {
    OnesPrefix(a, b, |a|, offset);
    OnesGrow(a + b, |a|, |a + b|, offset);
  }

  /** A refusal in the middle is a refusal of the whole. */
  lemma MiddleRefused(f: nat -> bool, a: seq<bool>, b: seq<bool>, c: seq<bool>, offset: nat)
    requires !Accepts(f, Ones(b, |b|, offset + |a|))
    ensures !Accepts(f, Ones(a + (b + c), |a + (b + c)|, offset))
  {
    PrefixRefused(f, b, c, offset + |a|);
    OnesJoin(a, b + c, |b + c|, offset);
    SuffixRefused(f, Ones(a, |a|, offset), Ones(b + c, |b + c|, offset + |a|));
  }

  lemma SuffixRefused(f: nat -> bool, x: seq<nat>, y: seq<nat>)
    requires !Accepts(f, y)
    ensures !Accepts(f, x + y)
  {
    var k :| 0 <= k < |y| && !f(y[k]);
    assert (x + y)[|x| + k] == y[k];
  }

  /** The whole bitmap fits and all its set bits are accepted. */
  ghost predicate Visitable(b: Bitmap, f: nat -> bool)
    requires WellFormed(b.words, 0)
  {
    var all := Expansion(b.words, 0, 0, b.numBits);
    Fits(b.words, 0, 0, b.numBits) && Accepts(f, Ones(all, |all|, 0))
  }

  ghost predicate GroupVisitable(words: seq<nat>, pos: nat, index: nat, num: nat, f: nat -> bool)
    requires pos < |words| && pos + 1 + Literals(words[pos]) <= |words|
  {
    var group := Group(words, pos, index, num);
    GroupFits(words, pos, index, num) && Accepts(f, Ones(group, |group|, index))
  }

  /** A group that cannot be visited decides the outcome. */
  lemma WalkedStops(b: Bitmap, f: nat -> bool, pos: nat, done: seq<bool>, visited: seq<nat>)
    requires WellFormed(b.words, 0) && Walked(b, f, pos, done, visited) && pos < |b.words|
    requires !GroupVisitable(b.words, pos, |done|, b.numBits, f)
    ensures !Visitable(b, f)
  {
    if GroupFits(b.words, pos, |done|, b.numBits) {
      var group := Group(b.words, pos, |done|, b.numBits);
      MiddleRefused(f, done, group, Expansion(b.words, pos + 1 + Literals(b.words[pos]), |done| + |group|, b.numBits),
                    0);
    }
  }

  /** Within a group, `done` has been visited and the literal words from `p` on decide about the rest. */
  ghost predicate InGroup(words: seq<nat>, pos: nat, start: nat, num: nat, f: nat -> bool,
                          before: seq<nat>, p: nat, k: nat, done: seq<bool>, visited: seq<nat>)
    requires pos < |words| && pos + 1 + Literals(words[pos]) <= |words|
  {
    && p + k == pos + 1 + Literals(words[pos])
    && GroupFits(words, pos, start, num) == LiteralsFit(words, p, k, start + |done|, num)
    && Group(words, pos, start, num) == done + LiteralBits(words, p, k, start + |done|, num)
    && Visited(f, before, done, |done|, start, true, visited)
  }

  lemma VisitedJoin(f: nat -> bool, before: seq<nat>, a: seq<bool>, b: seq<bool>, start: nat, v1: seq<nat>,
                    v2: seq<nat>)
    requires Visited(f, before, a, |a|, start, true, v1) && Visited(f, v1, b, |b|, start + |a|, true, v2)
    ensures Visited(f, before, a + b, |a + b|, start, true, v2)
  {
    OnesJoin(a, b, |b|, start);
  }

  lemma LiteralVisited(words: seq<nat>, pos: nat, start: nat, num: nat, f: nat -> bool,
                       before: seq<nat>, p: nat, k: nat, done: seq<bool>, visited: seq<nat>, visited': seq<nat>)
    requires pos < |words| && pos + 1 + Literals(words[pos]) <= |words| && k > 0
    requires InGroup(words, pos, start, num, f, before, p, k, done, visited)
    requires var w := Width(start + |done|, num);
      Visited(f, visited, Bits(words[p], w), w, start + |done|, true, visited')
      && start + |done| < num && (w < 64 ==> words[p] < Pow2(w))
    ensures InGroup(words, pos, start, num, f, before, p + 1, k - 1, done + Bits(words[p], Width(start + |done|, num)),
                    visited')
  {
    var bits := Bits(words[p], Width(start + |done|, num));
    VisitedJoin(f, before, done, bits, start, visited, visited');
    Regroup(done, bits, LiteralBits(words, p + 1, k - 1, start + |done| + |bits|, num));
  }

  lemma LiteralRefused(words: seq<nat>, pos: nat, start: nat, num: nat, f: nat -> bool,
                       before: seq<nat>, p: nat, k: nat, done: seq<bool>, visited: seq<nat>)
    requires pos < |words| && pos + 1 + Literals(words[pos]) <= |words| && k > 0
    requires InGroup(words, pos, start, num, f, before, p, k, done, visited)
    requires var bits := Bits(words[p], Width(start + |done|, num)); !Accepts(f, Ones(bits, |bits|, start + |done|))
    ensures !GroupVisitable(words, pos, start, num, f)
  {
    var bits := Bits(words[p], Width(start + |done|, num));
    MiddleRefused(f, done, bits, LiteralBits(words, p + 1, k - 1, start + |done| + |bits|, num), start);
  }

  /** The run of a running length word. */
  method VisitRunWord(words: seq<nat>, pos: nat, start: nat, num: nat, f: nat -> bool, before: seq<nat>)
    returns (ok: bool, visited: seq<nat>)
    requires pos < |words| && pos + 1 + Literals(words[pos]) <= |words| && start + RunLength(words[pos]) <= num
    ensures !ok ==> !GroupVisitable(words, pos, start, num, f)
    ensures ok ==> InGroup(words, pos, start, num, f, before, pos + 1, Literals(words[pos]),
                           Run(RunBit(words[pos]), RunLength(words[pos])), visited)
  {
    var w := words[pos];
    ok, visited := true, before;
    if RunBit(w) {
      ok, visited := VisitRun(f, before, RunLength(w), start);
      if !ok { RunRefused(words, pos, start, num, f); }
    } else {
      NoOnes(RunLength(w), RunLength(w), start);
    }
  }

  lemma GroupEnds(words: seq<nat>, pos: nat, start: nat, num: nat, f: nat -> bool, before: seq<nat>, p: nat,
                  done: seq<bool>, visited: seq<nat>)
    requires pos < |words| && pos + 1 + Literals(words[pos]) <= |words|
    requires InGroup(words, pos, start, num, f, before, p, 0, done, visited)
    ensures GroupVisitable(words, pos, start, num, f) && done == Group(words, pos, start, num)
  {
    assert done + [] == done;
  }

  /** One running length word and its literal words. */
  method VisitGroup(words: seq<nat>, pos: nat, start: nat, num: nat, f: nat -> bool, before: seq<nat>)
    returns (ok: bool, index: nat, visited: seq<nat>)
    requires pos < |words| && pos + 1 + Literals(words[pos]) <= |words|
    ensures ok <==> GroupVisitable(words, pos, start, num, f)
    ensures var group := Group(words, pos, start, num);
      ok ==> index == start + |group| && Visited(f, before, group, |group|, start, true, visited)
  {
    var w := words[pos];
    index, visited := start + RunLength(w), before;
    if index > num { return false, index, visited; }
    ok, visited := VisitRunWord(words, pos, start, num, f, before);
    if !ok { return; }
    ghost var done := Run(RunBit(w), RunLength(w));
    var p, k := pos + 1, Literals(w);
    while k > 0
      invariant InGroup(words, pos, start, num, f, before, p, k, done, visited) && index == start + |done|
      decreases k
    {
      var width := Width(index, num);
      if index >= num || (width < 64 && words[p] >= Pow2(width)) { return false, index, visited; }
      ghost var previous := visited;
      ok, visited := VisitLiteral(f, visited, words[p], width, index);
      if !ok {
        LiteralRefused(words, pos, start, num, f, before, p, k, done, previous);
        return;
      }
      LiteralVisited(words, pos, start, num, f, before, p, k, done, previous, visited);
      done := done + Bits(words[p], width);
      index, p, k := index + width, p + 1, k - 1;
    }
    GroupEnds(words, pos, start, num, f, before, p, done, visited);
    ok := true;
  }

  lemma RunRefused(words: seq<nat>, pos: nat, start: nat, num: nat, f: nat -> bool)
    requires pos < |words| && pos + 1 + Literals(words[pos]) <= |words|
    requires var run := Run(RunBit(words[pos]), RunLength(words[pos])); !Accepts(f, Ones(run, |run|, start))
    ensures !GroupVisitable(words, pos, start, num, f)
  {
    var w := words[pos];
    var run, rest := Run(RunBit(w), RunLength(w)), LiteralBits(words, pos + 1, Literals(w), start + RunLength(w), num);
    PrefixRefused(f, run, rest, start);
  }

  lemma {:induction false} NoOnes(len: nat, n: nat, offset: nat)
    requires n <= len
    ensures Ones(Run(false, len), n, offset) == []
  {
    if n > 0 { NoOnes(len, n - 1, offset); }
  }

  /** Visits exactly the set bits of the expansion, in order, unless it does not fit or a bit is refused. */
  method ForEachSetBit(b: Bitmap, f: nat -> bool) returns (ok: bool, visited: seq<nat>)
    requires WellFormed(b.words, 0)
    ensures ok <==> Visitable(b, f)
    ensures var all := Expansion(b.words, 0, 0, b.numBits); ok ==> visited == Ones(all, |all|, 0)
  {
    var pos, index := 0, 0;
    visited := [];
    ghost var done: seq<bool> := [];
    while pos < |b.words|
      invariant Walked(b, f, pos, done, visited) && index == |done|
      decreases |b.words| - pos
    {
      ghost var previous := visited;
      ok, index, visited := VisitGroup(b.words, pos, index, b.numBits, f, visited);
      if !ok {
        WalkedStops(b, f, pos, done, previous);
        return;
      }
      WalkedGroup(b, f, pos, done, previous, visited);
      done := done + Group(b.words, pos, |done|, b.numBits);
      pos := pos + 1 + Literals(b.words[pos]);
    }
    assert done + [] == done;
    ok := true;
  }

  // -------------------------------------------------------------------------------------------------
  // Bitmaps from bits.
  // -------------------------------------------------------------------------------------------------

  function Chunks(n: nat): nat { (n + 63) / 64 }

  function ChunkEnd(k: nat, n: nat): nat {
    if 64 * k + 64 < n then 64 * k + 64 else n
  }

  /** The words of a literal-only bitmap. */
  ghost predicate IsLiteral(bits: seq<bool>, words: seq<nat>) {
    var n := |bits|;
    && |words| == 1 + Chunks(n) && words[0] == Chunks(n) * LITERAL_UNIT
    && forall k :: 0 <= k < Chunks(n) ==> words[k + 1] == Digits(bits, 64 * k, ChunkEnd(k, n))
  }

  method FromBits(bits: seq<bool>) returns (r: Option<Bitmap>)
    ensures r.Some? <==> |bits| < U32
    ensures r.Some? ==>
              Valid(r.value) && r.value.numBits == |bits| && r.value.rlw == 0 && IsLiteral(bits, r.value.words)
    ensures r.Some? ==> Fits(r.value.words, 0, 0, |bits|) && Expansion(r.value.words, 0, 0, |bits|) == bits
  {
    if |bits| >= U32 { return None; }
    var words: seq<nat> := [Chunks(|bits|) * LITERAL_UNIT];
    for k := 0 to Chunks(|bits|)
      invariant |words| == 1 + k && words[0] == Chunks(|bits|) * LITERAL_UNIT
      invariant forall x :: 0 <= x < k ==> words[x + 1] == Digits(bits, 64 * x, ChunkEnd(x, |bits|))
    {
      var word := ChunkWord(bits, 64 * k, ChunkEnd(k, |bits|));
      words := words + [word];
    }
    LiteralExpands(bits, words);
    r := Some(Bitmap(|bits|, words, 0));
  }

  lemma LiteralHeader(c: nat)
    ensures !RunBit(c * LITERAL_UNIT) && RunLength(c * LITERAL_UNIT) == 0 && Literals(c * LITERAL_UNIT) == c
  {
    assert c * LITERAL_UNIT / 2 == c * U32;
  }

  lemma DigitsExpand(bits: seq<bool>, k: nat, n: nat)
    requires k <= n <= |bits|
    ensures Bits(Digits(bits, k, n), n - k) == bits[k..n]
  {
    forall i | 0 <= i < n - k ensures Bit(Digits(bits, k, n), i) == bits[k..n][i] {
      DigitsAreBits(bits, k, n, i);
    }
  }

  lemma {:induction false} LiteralsExpand(bits: seq<bool>, words: seq<nat>, k: nat)
    requires IsLiteral(bits, words) && k <= Chunks(|bits|)
    ensures var c, index := Chunks(|bits|), if 64 * k < |bits| then 64 * k else |bits|;
      && LiteralsFit(words, k + 1, c - k, index, |bits|)
      && LiteralBits(words, k + 1, c - k, index, |bits|) == bits[index..]
    decreases Chunks(|bits|) - k
  {
    if k < Chunks(|bits|) {
      LiteralsExpand(bits, words, k + 1);
      var n, e := |bits|, ChunkEnd(k, |bits|);
      DigitsExpand(bits, 64 * k, e);
      assert bits[64 * k..e] + bits[e..] == bits[64 * k..];
    }
  }

  /** Expanding the bitmap of some bits gives back these bits. */
  lemma LiteralExpands(bits: seq<bool>, words: seq<nat>)
    requires IsLiteral(bits, words)
    ensures WellFormed(words, 0) && Fits(words, 0, 0, |bits|) && Expansion(words, 0, 0, |bits|) == bits
  {
    LiteralHeader(Chunks(|bits|));
    LiteralsExpand(bits, words, 0);
    assert Group(words, 0, 0, |bits|) == bits;
    assert bits + [] == bits;
  }

  // -------------------------------------------------------------------------------------------------
  // The format on disk.
  // -------------------------------------------------------------------------------------------------

  function Pow256(n: nat): nat {
    if n == 0 then 1 else 256 * Pow256(n - 1)
  }

  /** The `n` bytes of a number, the highest first. */
  function BigEndian(v: nat, n: nat): (s: seq<Byte>)
    ensures |s| == n
  {
    if n == 0 then [] else BigEndian(v / 256, n - 1) + [v % 256]
  }

  function Read(s: seq<Byte>, k: nat, n: nat): nat
    requires k + n <= |s|
  {
    if n == 0 then 0 else Read(s, k, n - 1) * 256 + s[k + n - 1]
  }

  /** Reading a number and writing it are inverse. */
  lemma {:induction false} ReadIsInverse(s: seq<Byte>, k: nat, v: nat, n: nat)
    requires k + n <= |s| && v < Pow256(n)
    ensures Has(s, k, BigEndian(v, n)) <==> Read(s, k, n) == v
  {
    if n > 0 {
      ReadIsInverse(s, k, v / 256, n - 1);
      HasJoin(s, k, BigEndian(v / 256, n - 1), [v % 256]);
      HasOne(s, k + n - 1, v % 256);
    }
  }

  lemma {:induction false} ReadIsBounded(s: seq<Byte>, k: nat, n: nat)
    requires k + n <= |s|
    ensures Read(s, k, n) < Pow256(n)
  {
    if n > 0 { ReadIsBounded(s, k, n - 1); }
  }

  function WordBytes(words: seq<nat>, n: nat): (s: seq<Byte>)
    requires n <= |words|
    ensures |s| == 8 * n
  {
    if n == 0 then [] else WordBytes(words, n - 1) + BigEndian(words[n - 1], 8)
  }

  /** The numbers fit the fields of the format. */
  predicate Storable(b: Bitmap) {
    b.numBits < U32 && |b.words| < U32 && b.rlw < U32 && forall k :: 0 <= k < |b.words| ==> b.words[k] < U64
  }

  function Encoded(b: Bitmap): seq<Byte> {
    BigEndian(b.numBits, 4) + BigEndian(|b.words|, 4) + WordBytes(b.words, |b.words|) + BigEndian(b.rlw, 4)
  }

  method WriteTo(b: Bitmap) returns (r: Option<seq<Byte>>)
    requires b.numBits < U32
    ensures r == if |b.words| < U32 && b.rlw < U32 then Some(Encoded(b)) else None
  {
    if |b.words| >= U32 || b.rlw >= U32 { return None; }
    var out := BigEndian(b.numBits, 4) + BigEndian(|b.words|, 4);
    ghost var head := out;
    for i := 0 to |b.words|
      invariant out == head + WordBytes(b.words, i)
    {
      out := out + BigEndian(b.words[i], 8);
    }
    r := Some(out + BigEndian(b.rlw, 4));
  }

  /** The data starts with a valid bitmap of `k` bytes. */
  ghost predicate StartsWith(data: seq<Byte>, b: Bitmap, k: nat) {
    Storable(b) && Valid(b) && k == |Encoded(b)| && Has(data, 0, Encoded(b))
  }

  /** What the fields of the data say. */
  ghost predicate Fields(data: seq<Byte>, b: Bitmap) {
    var n := |b.words|;
    && 12 + 8 * n <= |data| && b.numBits == Read(data, 0, 4) && n == Read(data, 4, 4)
    && (forall i :: 0 <= i < n ==> b.words[i] == Read(data, 8 + 8 * i, 8)) && b.rlw == Read(data, 8 + 8 * n, 4)
  }

  lemma {:induction false} WordFields(data: seq<Byte>, words: seq<nat>, n: nat)
    requires n <= |words| && 8 + 8 * n <= |data| && forall k :: 0 <= k < |words| ==> words[k] < U64
    ensures Has(data, 8, WordBytes(words, n)) <==> forall i :: 0 <= i < n ==> words[i] == Read(data, 8 + 8 * i, 8)
  {
    if n > 0 {
      WordFields(data, words, n - 1);
      HasJoin(data, 8, WordBytes(words, n - 1), BigEndian(words[n - 1], 8));
      assert Pow256(8) == U64;
      ReadIsInverse(data, 8 + 8 * (n - 1), words[n - 1], 8);
    }
  }

  lemma EncodedLength(b: Bitmap)
    ensures |Encoded(b)| == 12 + 8 * |b.words|
  {
  }

  /** The encoding stands at the beginning of the data exactly if all fields read as they should. */
  lemma EncodedFields(data: seq<Byte>, b: Bitmap)
    requires Storable(b) && 12 + 8 * |b.words| <= |data|
    ensures Has(data, 0, Encoded(b)) <==> Fields(data, b)
  {
    var n := |b.words|;
    var a, c, d, e := BigEndian(b.numBits, 4), BigEndian(n, 4), WordBytes(b.words, n), BigEndian(b.rlw, 4);
    HasJoin(data, 0, a + c + d, e);
    HasJoin(data, 0, a + c, d);
    HasJoin(data, 0, a, c);
    assert Pow256(4) == U32;
    ReadIsInverse(data, 0, b.numBits, 4);
    ReadIsInverse(data, 4, n, 4);
    WordFields(data, b.words, n);
    ReadIsInverse(data, 8 + 8 * n, b.rlw, 4);
  }

  /** Data starts with at most one bitmap. */
  lemma StartsWithOne(data: seq<Byte>, a: Bitmap, k: nat, b: Bitmap, l: nat)
    requires StartsWith(data, a, k) && StartsWith(data, b, l)
    ensures a == b && k == l
  {
    EncodedLength(a);
    EncodedLength(b);
    EncodedFields(data, a);
    EncodedFields(data, b);
    assert a.words == b.words;
  }

  lemma FieldsOf(data: seq<Byte>, b: Bitmap, k: nat)
    requires StartsWith(data, b, k)
    ensures Fields(data, b) && k == 12 + 8 * |b.words| <= |data|
  {
    EncodedLength(b);
    EncodedFields(data, b);
  }

  method ReadWords(data: seq<Byte>, n: nat) returns (words: seq<nat>)
    requires 8 + 8 * n <= |data|
    ensures |words| == n && forall i :: 0 <= i < n ==> words[i] == Read(data, 8 + 8 * i, 8) < U64
  {
    words := [];
    for i := 0 to n
      invariant |words| == i && forall x :: 0 <= x < i ==> words[x] == Read(data, 8 + 8 * x, 8) < U64
    {
      assert Pow256(8) == U64;
      ReadIsBounded(data, 8 + 8 * i, 8);
      words := words + [Read(data, 8 + 8 * i, 8)];
    }
  }

  /** Finds the bitmap the data starts with, and where the rest begins. */
  method Decode(data: seq<Byte>) returns (r: Option<(Bitmap, nat)>)
    ensures r.Some? ==> StartsWith(data, r.value.0, r.value.1)
    ensures r.None? ==> forall b, k :: !StartsWith(data, b, k)
  {
    if |data| < 12 {
      forall b, k | StartsWith(data, b, k) ensures false { FieldsOf(data, b, k); }
      return None;
    }
    var n := Read(data, 4, 4);
    if 12 + 8 * n > |data| {
      forall b, k | StartsWith(data, b, k) ensures false { FieldsOf(data, b, k); }
      return None;
    }
    var b := ReadFields(data, n);
    var ok := ValidateWords(b.words, b.rlw);
    if !ok {
      forall c, k | StartsWith(data, c, k) ensures c == b { FieldsDecide(data, b, c, k); }
      return None;
    }
    EncodedFields(data, b);
    EncodedLength(b);
    r := Some((b, 12 + 8 * n));
  }

  method ReadFields(data: seq<Byte>, n: nat) returns (b: Bitmap)
    requires 12 + 8 * n <= |data| && n == Read(data, 4, 4)
    ensures Fields(data, b) && Storable(b) && |b.words| == n
  {
    assert Pow256(4) == U32;
    ReadIsBounded(data, 0, 4);
    ReadIsBounded(data, 4, 4);
    ReadIsBounded(data, 8 + 8 * n, 4);
    var words := ReadWords(data, n);
    b := Bitmap(Read(data, 0, 4), words, Read(data, 8 + 8 * n, 4));
  }

  /** The fields that are read are those of every bitmap the data could start with. */
  lemma FieldsDecide(data: seq<Byte>, b: Bitmap, c: Bitmap, k: nat)
    requires Fields(data, b) && StartsWith(data, c, k)
    ensures b == c
  {
    FieldsOf(data, c, k);
    assert c.words == b.words;
  }

  lemma {:induction false} Pow2Grows(n: nat, m: nat)
    requires n <= m
    ensures Pow2(n) <= Pow2(m)
    decreases m - n
  {
    if n < m { Pow2Grows(n, m - 1); }
  }

  lemma Pow2Bytes(n: nat)
    ensures Pow2(n + 8) == 256 * Pow2(n)
  {
    assert Pow2(n + 8) == 4 * Pow2(n + 6);
    assert Pow2(n + 6) == 4 * Pow2(n + 4);
    assert Pow2(n + 4) == 4 * Pow2(n + 2);
  }

  lemma Pow2Of64()
    ensures Pow2(64) == U64
  {
    Pow2Bytes(0);
    Pow2Bytes(8);
    Pow2Bytes(16);
    Pow2Bytes(24);
    Pow2Bytes(32);
    Pow2Bytes(40);
    Pow2Bytes(48);
    Pow2Bytes(56);
  }

  lemma LiteralStorable(bits: seq<bool>, b: Bitmap)
    requires |bits| < U32 && b.numBits == |bits| && IsLiteral(bits, b.words) && b.rlw == 0
    ensures Storable(b)
  {
    Pow2Of64();
    forall k | 0 <= k < |b.words| ensures b.words[k] < U64 {
      if k > 0 {
        var w := b.words[(k - 1) + 1];
        assert w == Digits(bits, 64 * (k - 1), ChunkEnd(k - 1, |bits|));
        Pow2Grows(ChunkEnd(k - 1, |bits|) - 64 * (k - 1), 64);
      }
    }
  }

  lemma EncodedStarts(b: Bitmap, rest: seq<Byte>)
    requires Storable(b) && Valid(b)
    ensures StartsWith(Encoded(b) + rest, b, |Encoded(b)|)
  {
    var data := Encoded(b) + rest;
    assert forall x :: 0 <= x < |Encoded(b)| ==> data[x] == Encoded(b)[x];
  }

  /** Decoding finds what was written in front of anything else. */
  method DecodeEncoded(b: Bitmap, rest: seq<Byte>) returns (r: Option<(Bitmap, nat)>)
    requires Storable(b) && Valid(b)
    ensures r == Some((b, |Encoded(b)|))
  {
    EncodedStarts(b, rest);
    r := Decode(Encoded(b) + rest);
    if r.Some? {
      StartsWithOne(Encoded(b) + rest, b, |Encoded(b)|, r.value.0, r.value.1);
    }
  }

  /** Bits that are written, read back and visited: exactly the set ones, and the rest of the data is left. */
  method RoundTrip(bits: seq<bool>, rest: seq<Byte>) returns (visited: seq<nat>, left: seq<Byte>)
    requires |bits| < U32
    ensures visited == Ones(bits, |bits|, 0) && left == rest
  {
    var b := FromBits(bits);
    LiteralStorable(bits, b.value);
    var out := WriteTo(b.value);
    var r := DecodeEncoded(b.value, rest);
    left := (out.value + rest)[r.value.1..];
    var ok;
    ok, visited := ForEachSetBit(r.value.0, _ => true);
  }
}
