/**
 * Which bytes a bracket expression of `gix-glob/src/wildmatch.rs` stands for: an expression that is written from a list
 * of bytes, ranges and classes is read as that list, by every byte.
 */
module Brackets {
  import opened Bytes
  import opened Sequences
  import opened Wildmatch

  /** What a bracket expression can list. */
  datatype Member =
    | One(byte: Byte)
    | Escaped(byte: Byte)
    | Span(lo: Byte, hi: Byte)
    | Class(name: seq<Byte>)

  /** A byte that stands for itself at any place in a bracket expression. */
  predicate Plain(b: Byte) {
    b != 0 && b != BACKSLASH && b != BRACKET_OPEN && b != BRACKET_CLOSE && b != DASH
  }

  predicate Proper(x: Member) {
    match x
    case One(b) => Plain(b)
    case Escaped(_) => true
    case Span(lo, hi) => Plain(lo) && hi != BRACKET_CLOSE && hi != BACKSLASH
    case Class(name) => name != [] && BRACKET_CLOSE !in name && FindClass(name, 0) < |CLASS_NAMES|
  }

  predicate AllProper(xs: seq<Member>) {
    forall k :: 0 <= k < |xs| ==> Proper(xs[k])
  }

  function Written(x: Member): (r: seq<Byte>)
    ensures |r| > 0
  {
    match x
    case One(b) => [b]
    case Escaped(b) => [BACKSLASH, b]
    case Span(lo, hi) => [lo, DASH, hi]
    case Class(name) => [BRACKET_OPEN, COLON] + name + [COLON, BRACKET_CLOSE]
  }

  function AllWritten(xs: seq<Member>): seq<Byte> {
    if xs == [] then [] else Written(xs[0]) + AllWritten(xs[1..])
  }

  /** The bytes a member stands for; a range includes its first byte even if its last one is smaller. */
  predicate Includes(x: Member, t: Byte, m: Mode) {
    match x
    case One(b) => Fold(b, m) == t
    case Escaped(b) => Fold(b, m) == t
    case Span(lo, hi) => Fold(lo, m) == t || InRange(Fold(lo, m), Fold(hi, m), t, m.fold)
    case Class(name) => InClass(FindClass(name, 0), t, m.fold)
  }

  predicate Listed(xs: seq<Member>, t: Byte, m: Mode) {
    exists k :: 0 <= k < |xs| && Includes(xs[k], t, m)
  }

  lemma ListedNext(xs: seq<Member>, t: Byte, m: Mode)
    requires xs != []
    ensures Listed(xs, t, m) <==> Includes(xs[0], t, m) || Listed(xs[1..], t, m)
  {
    if Listed(xs[1..], t, m) {
      var k :| 0 <= k < |xs| - 1 && Includes(xs[1..][k], t, m);
      assert Includes(xs[k + 1], t, m);
    }
    if k :| 0 < k < |xs| && Includes(xs[k], t, m) {
      assert Includes(xs[1..][k - 1], t, m);
    }
  }

  /** Reading up to `next` leaves the rest, with one more hit. */
  predicate ReadsOn(p: seq<Byte>, k: nat, next: nat, t: Byte, m: Mode, negated: bool, prev: Byte, matched: bool,
                    hit: bool, prev': Byte)
  {
    && k < next < |p|
    && Bracket(p, k, t, m, negated, prev, matched)
       == if p[next] == BRACKET_CLOSE then Consume(next + 1, (matched || hit) != negated && !(m.path && t == SLASH))
          else Bracket(p, next, t, m, negated, prev', matched || hit)
  }

  lemma ItemReads(p: seq<Byte>, k: nat, t: Byte, m: Mode, negated: bool, prev: Byte, matched: bool)
    requires k < |p| && NextItem(p, k, t, m, prev).Next? && NextItem(p, k, t, m, prev).k < |p|
    ensures var item := NextItem(p, k, t, m, prev);
            ReadsOn(p, k, item.k, t, m, negated, prev, matched, item.hit, item.prev)
  {}

  lemma MemberReads(p: seq<Byte>, k: nat, x: Member, t: Byte, m: Mode, negated: bool, prev: Byte, matched: bool)
    returns (prev': Byte)
    requires Proper(x) && Has(p, k, Written(x)) && k + |Written(x)| < |p|
    ensures ReadsOn(p, k, k + |Written(x)|, t, m, negated, prev, matched, Includes(x, t, m), prev')
  {
    match x
    case One(b) =>
      assert p[k] == Written(x)[0];
      ItemReads(p, k, t, m, negated, prev, matched);
      prev' := Fold(b, m);
    case Escaped(b) =>
      assert p[k] == Written(x)[0] && p[k + 1] == Written(x)[1];
      ItemReads(p, k, t, m, negated, prev, matched);
      prev' := if Fold(b, m) == t then prev else Fold(b, m);
    case Span(lo, hi) =>
      SpanReads(p, k, lo, hi, t, m, negated, prev, matched);
      prev' := 0;
    case Class(name) =>
      NameCloses(p, k, name, k + |name| + 3);
      ClassItem(p, k, k + |name| + 3, name, t, m, prev);
      ItemReads(p, k, t, m, negated, prev, matched);
      prev' := 0;
  }

  lemma SpanReads(p: seq<Byte>, k: nat, lo: Byte, hi: Byte, t: Byte, m: Mode, negated: bool, prev: Byte, matched: bool)
    requires Proper(Span(lo, hi)) && Has(p, k, [lo, DASH, hi]) && k + 3 < |p|
    ensures ReadsOn(p, k, k + 3, t, m, negated, prev, matched, Includes(Span(lo, hi), t, m), 0)
  {
    var w := [lo, DASH, hi];
    assert p[k] == w[0] && p[k + 1] == w[1] && p[k + 2] == w[2];
    var c, hit := Fold(lo, m), InRange(Fold(lo, m), Fold(hi, m), t, m.fold);
    assert NextItem(p, k, t, m, prev) == Next(k + 1, c, c == t);
    ItemReads(p, k, t, m, negated, prev, matched);
    assert NextItem(p, k + 1, t, m, c) == Next(k + 3, 0, hit);
    ItemReads(p, k + 1, t, m, negated, c, matched || c == t);
  }

  lemma ClassItem(p: seq<Byte>, k: nat, close: nat, name: seq<Byte>, t: Byte, m: Mode, prev: Byte)
    requires k + 2 < close < |p| && p[k] == BRACKET_OPEN && p[k + 1] == COLON && FindClose(p, k + 2) == close
    requires p[close - 1] == COLON && p[k + 2..close - 1] == name && FindClass(name, 0) < |CLASS_NAMES|
    ensures NextItem(p, k, t, m, prev) == Next(close + 1, 0, InClass(FindClass(name, 0), t, m.fold))
  {}

  lemma NameStands(p: seq<Byte>, k: nat, name: seq<Byte>, close: nat)
    requires Has(p, k, Written(Class(name))) && BRACKET_CLOSE !in name && close == k + |name| + 3
    ensures close < |p| && p[k] == BRACKET_OPEN && p[k + 1] == COLON && p[close - 1] == COLON
    ensures p[k + 2..close - 1] == name && p[close] == BRACKET_CLOSE
    ensures forall x :: k + 2 <= x < close ==> p[x] != BRACKET_CLOSE
  {
    var w, n := Written(Class(name)), |name|;
    assert p[k] == w[0] && p[k + 1] == w[1] && p[k + 2 + n] == w[2 + n] && p[k + 3 + n] == w[3 + n];
    forall x | 0 <= x < n
      ensures p[k + 2 + x] == name[x] != BRACKET_CLOSE
    {
      assert p[k + 2 + x] == w[2 + x] && name[x] in name;
    }
    forall x | k + 2 <= x < close
      ensures p[x] != BRACKET_CLOSE
    {
      if x < close - 1 { assert p[k + 2 + (x - k - 2)] == name[x - k - 2]; }
    }
  }

  lemma {:induction false} CloseIs(p: seq<Byte>, k: nat, close: nat)
    requires k <= close < |p| && p[close] == BRACKET_CLOSE && forall x :: k <= x < close ==> p[x] != BRACKET_CLOSE
    ensures FindClose(p, k) == close
    decreases close - k
  {
    if k < close { CloseIs(p, k + 1, close); }
  }

  lemma NameCloses(p: seq<Byte>, k: nat, name: seq<Byte>, close: nat)
    requires Has(p, k, Written(Class(name))) && BRACKET_CLOSE !in name && close == k + |name| + 3
    ensures close < |p| && p[k] == BRACKET_OPEN && p[k + 1] == COLON && p[close - 1] == COLON
    ensures p[k + 2..close - 1] == name && FindClose(p, k + 2) == close
  {
    NameStands(p, k, name, close);
    CloseIs(p, k + 2, close);
  }

  /** No member begins with a bracket that closes. */
  lemma FirstOf(xs: seq<Member>)
    requires xs != [] && AllProper(xs)
    ensures AllWritten(xs) != [] && AllWritten(xs)[0] == Written(xs[0])[0] != BRACKET_CLOSE
  {}

  lemma {:induction false} MembersRead(p: seq<Byte>, k: nat, xs: seq<Member>, t: Byte, m: Mode, negated: bool,
                                       prev: Byte, matched: bool)
    requires xs != [] && AllProper(xs) && Has(p, k, AllWritten(xs) + [BRACKET_CLOSE])
    ensures Bracket(p, k, t, m, negated, prev, matched)
            == Consume(k + |AllWritten(xs)| + 1, (matched || Listed(xs, t, m)) != negated && !(m.path && t == SLASH))
    decreases |xs|
  {
    var w, rest := Written(xs[0]), AllWritten(xs[1..]);
    Regroup(w, rest, [BRACKET_CLOSE]);
    HasJoin(p, k, w, rest + [BRACKET_CLOSE]);
    var prev' := MemberReads(p, k, xs[0], t, m, negated, prev, matched);
    ListedNext(xs, t, m);
    var next, hit := k + |w|, Includes(xs[0], t, m);
    assert p[next] == (rest + [BRACKET_CLOSE])[0];
    if |xs| > 1 {
      FirstOf(xs[1..]);
      MembersRead(p, next, xs[1..], t, m, negated, prev', matched || hit);
    }
  }

  /** Nothing in front of the list, or one of the two bytes that negate it. */
  predicate Sign(sign: seq<Byte>) { sign == [] || sign == [BANG] || sign == [CARET] }

  function Bracketed(sign: seq<Byte>, xs: seq<Member>): seq<Byte> {
    [BRACKET_OPEN] + sign + (AllWritten(xs) + [BRACKET_CLOSE])
  }

  /** The list begins at `k`. */
  predicate Opens(p: seq<Byte>, i: nat, k: nat, negated: bool) {
    && i + 1 < |p| && p[i] == BRACKET_OPEN && k == (if negated then i + 2 else i + 1) <= |p|
    && (negated <==> p[i + 1] == CARET || p[i + 1] == BANG)
  }

  lemma HeadStands(p: seq<Byte>, i: nat, sign: seq<Byte>, body: seq<Byte>) returns (k: nat)
    requires Sign(sign) && body != [] && Has(p, i, [BRACKET_OPEN] + sign + body)
    requires sign == [] ==> body[0] != CARET && body[0] != BANG
    ensures k == i + 1 + |sign| && Has(p, k, body)
    ensures Opens(p, i, k, sign != [])
  {
    var head := [BRACKET_OPEN] + sign;
    k := i + |head|;
    HasJoin(p, i, head, body);
    assert p[i] == head[0] && p[k] == body[0];
    if sign != [] { assert p[i + 1] == head[1]; }
  }

  lemma HeadReads(p: seq<Byte>, i: nat, k: nat, negated: bool, t: Byte, m: Mode)
    requires Opens(p, i, k, negated)
    ensures Item(p, i, t, m) == Bracket(p, k, t, m, negated, 0, false)
  {}

  /**
   * Exactly the bytes that are listed are accepted, or exactly those that are not if the list is negated; a slash never
   * is where it separates components.
   */
  lemma BracketLists(p: seq<Byte>, i: nat, sign: seq<Byte>, xs: seq<Member>, t: Byte, m: Mode)
    requires xs != [] && AllProper(xs) && Sign(sign) && Has(p, i, Bracketed(sign, xs))
    requires sign == [] ==> Written(xs[0])[0] != CARET && Written(xs[0])[0] != BANG
    ensures i < |p| && p[i] == BRACKET_OPEN
    ensures Item(p, i, t, m)
            == Consume(i + |Bracketed(sign, xs)|, Listed(xs, t, m) != (sign != []) && !(m.path && t == SLASH))
  {
    FirstOf(xs);
    var k := HeadStands(p, i, sign, AllWritten(xs) + [BRACKET_CLOSE]);
    HeadReads(p, i, k, sign != [], t, m);
    MembersRead(p, k, xs, t, m, sign != [], 0, false);
  }
}
