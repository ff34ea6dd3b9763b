/**
 * `validate_capability` of `gix-bundle/src/header.rs`: the capabilities a bundle may ask for. A filter can combine
 * others, which are percent-encoded in it, to a depth of 8.
 */
module Capabilities {
  import opened Wrappers

  // -------------------------------------------------------------------------------------------------
  // Percent-encoding.
  // -------------------------------------------------------------------------------------------------

  function HexValue(c: char): (r: Option<nat>)
    ensures r.Some? ==> r.value < 16
  {
    if '0' <= c <= '9' then Some(c as int - '0' as int)
    else if 'a' <= c <= 'f' then Some(c as int - 'a' as int + 10)
    else if 'A' <= c <= 'F' then Some(c as int - 'A' as int + 10)
    else None
  }

  /** The byte that two hexadecimal digits stand for. */
  function HexByte(high: char, low: char): Option<char> {
    match (HexValue(high), HexValue(low))
    case (Some(h), Some(l)) => Some((16 * h + l) as char)
    case _ => None
  }

  /** `v` has every byte of `s` as itself, which must not be a `%`, or as `%` and two hexadecimal digits. */
  ghost predicate Encodes(v: string, s: string)
    decreases |s|
  {
    if s == [] then v == []
    else
      || (v != [] && v[0] != '%' && v[0] == s[0] && Encodes(v[1..], s[1..]))
      || (|v| >= 3 && v[0] == '%' && HexByte(v[1], v[2]) == Some(s[0]) && Encodes(v[3..], s[1..]))
  }

  /** What `v` from `k` on encodes. */
  function Decoded(v: string, k: nat): (r: Option<string>)
    requires k <= |v|
    decreases |v| - k
  {
    if k == |v| then Some([])
    else if v[k] != '%' then Behind([v[k]], Decoded(v, k + 1))
    else if k + 3 > |v| || HexByte(v[k + 1], v[k + 2]).None? then None
    else Behind([HexByte(v[k + 1], v[k + 2]).value], Decoded(v, k + 3))
  }

  function Behind(s: string, r: Option<string>): Option<string> {
    if r.Some? then Some(s + r.value) else None
  }

  method PercentDecode(value: string) returns (r: Option<string>)
    ensures r == Decoded(value, 0)
    ensures forall s :: Encodes(value, s) <==> r == Some(s)
  {
    forall s ensures Encodes(value, s) <==> Decoded(value, 0) == Some(s) {
      assert value[0..] == value;
      DecodedIsEncoded(value, 0, s);
    }
    var out: string, pos := [], 0;
    BehindNothing(Decoded(value, 0));
    while pos < |value|
      invariant pos <= |value| && Decoded(value, 0) == Behind(out, Decoded(value, pos))
    {
      if value[pos] == '%' {
        if pos + 3 > |value| { return None; }
        var byte := HexByte(value[pos + 1], value[pos + 2]);
        if byte.None? { return None; }
        BehindJoin(out, [byte.value], Decoded(value, pos + 3));
        out, pos := out + [byte.value], pos + 3;
      } else {
        BehindJoin(out, [value[pos]], Decoded(value, pos + 1));
        out, pos := out + [value[pos]], pos + 1;
      }
    }
    assert out + [] == out;
    r := Some(out);
  }

  lemma BehindNothing(r: Option<string>)
    ensures Behind([], r) == r
  {
    if r.Some? { assert [] + r.value == r.value; }
  }

  lemma BehindJoin(a: string, b: string, r: Option<string>)
    ensures Behind(a, Behind(b, r)) == Behind(a + b, r)
  {
    if r.Some? { assert a + (b + r.value) == a + b + r.value; }
  }

  lemma {:induction false} DecodedIsEncoded(v: string, k: nat, s: string)
    requires k <= |v|
    ensures Encodes(v[k..], s) <==> Decoded(v, k) == Some(s)
    decreases |v| - k
  {
    var rest := v[k..];
    if k < |v| && v[k] != '%' {
      assert rest[1..] == v[k + 1..];
      DecodedBehind(v, k, k + 1, v[k], s);
      if s != [] { DecodedIsEncoded(v, k + 1, s[1..]); }
    } else if k + 3 <= |v| && HexByte(v[k + 1], v[k + 2]).Some? {
      assert rest[3..] == v[k + 3..];
      DecodedBehind(v, k, k + 3, HexByte(v[k + 1], v[k + 2]).value, s);
      if s != [] { DecodedIsEncoded(v, k + 3, s[1..]); }
    }
  }

  lemma DecodedBehind(v: string, k: nat, n: nat, c: char, s: string)
    requires k <= n <= |v| && Decoded(v, k) == Behind([c], Decoded(v, n))
    ensures Decoded(v, k) == Some(s) <==> s != [] && s[0] == c && Decoded(v, n) == Some(s[1..])
  {
    var r := Decoded(v, n);
    if r.Some? { assert ([c] + r.value)[1..] == r.value; }
    if s != [] { assert [s[0]] + s[1..] == s; }
  }

  function HexDigit(n: nat): (c: char)
    requires n < 16
    ensures HexValue(c) == Some(n)
  {
    if n < 10 then '0' + n as char else 'a' + (n - 10) as char
  }

  /** Encodes the bytes that have to be. */
  function PercentEncode(s: string, reserved: char -> bool): string
    requires IsBytes(s)
  {
    if s == [] then []
    else
      var c, rest := s[0] as int, PercentEncode(s[1..], reserved);
      if reserved(s[0]) then ['%', HexDigit(c / 16), HexDigit(c % 16)] + rest else [s[0]] + rest
  }

  predicate IsBytes(s: string) {
    forall k :: 0 <= k < |s| ==> s[k] as int < 256
  }

  /** `%` has to be encoded, and so does what separates filters. */
  ghost predicate Reserves(reserved: char -> bool) {
    reserved('%') && reserved('+')
  }

  lemma {:induction false} EncodedIsDecoded(s: string, reserved: char -> bool)
    requires IsBytes(s) && Reserves(reserved)
    ensures Encodes(PercentEncode(s, reserved), s) && '+' !in PercentEncode(s, reserved)
    ensures IsBytes(PercentEncode(s, reserved)) && (s != [] ==> PercentEncode(s, reserved) != [])
  {
    if s != [] {
      EncodedIsDecoded(s[1..], reserved);
      var v, rest, c := PercentEncode(s, reserved), PercentEncode(s[1..], reserved), s[0] as int;
      if reserved(s[0]) {
        assert v[3..] == rest && HexByte(v[1], v[2]) == Some((16 * (c / 16) + c % 16) as char);
      } else {
        assert v[1..] == rest;
      }
    }
  }

  // -------------------------------------------------------------------------------------------------
  // Lists of filters.
  // -------------------------------------------------------------------------------------------------

  function Join(parts: seq<string>): string
    requires parts != []
  {
    if |parts| == 1 then parts[0] else parts[0] + "+" + Join(parts[1..])
  }

  function FindPlus(s: string, k: nat): (r: nat)
    requires k <= |s|
    ensures k <= r <= |s| && (r < |s| ==> s[r] == '+') && '+' !in s[k..r]
    decreases |s| - k
  {
    if k < |s| && s[k] != '+' then
      var r := FindPlus(s, k + 1);
      assert s[k..r] == [s[k]] + s[k + 1..r];
      r
    else k
  }

  /** The parts between the `+`. */
  function Split(s: string): (parts: seq<string>)
    ensures parts != [] && Join(parts) == s && forall i :: 0 <= i < |parts| ==> '+' !in parts[i]
  {
    var e := FindPlus(s, 0);
    if e == |s| then
      assert s[0..e] == s;
      [s]
    else
      var rest := Split(s[e + 1..]);
      assert s == s[..e] + "+" + s[e + 1..] && ([s[..e]] + rest)[1..] == rest && s[0..e] == s[..e];
      [s[..e]] + rest
  }

  lemma {:induction false} FindPlusIs(s: string, k: nat, e: nat)
    requires k <= e <= |s| && '+' !in s[k..e] && (e < |s| ==> s[e] == '+')
    ensures FindPlus(s, k) == e
    decreases e - k
  {
    if k < e {
      assert s[k..e] == [s[k]] + s[k + 1..e];
      FindPlusIs(s, k + 1, e);
    }
  }

  /** Joined parts start with the first one, up to the first `+`. */
  lemma FirstPart(a: seq<string>)
    requires a != [] && '+' !in a[0]
    ensures FindPlus(Join(a), 0) == |a[0]| <= |Join(a)| && Join(a)[..|a[0]|] == a[0]
    ensures |a[0]| < |Join(a)| <==> |a| > 1
    ensures |a| > 1 ==> Join(a)[|a[0]| + 1..] == Join(a[1..])
  {
    var s := Join(a);
    assert s[0..|a[0]|] == a[0];
    FindPlusIs(s, 0, |a[0]|);
  }

  /** There is only one way to split. */
  lemma {:induction false} SplitOnce(a: seq<string>, b: seq<string>)
    requires a != [] && b != [] && Join(a) == Join(b)
    requires forall i :: 0 <= i < |a| ==> '+' !in a[i]
    requires forall i :: 0 <= i < |b| ==> '+' !in b[i]
    ensures a == b
  {
    FirstPart(a);
    FirstPart(b);
    if |a| > 1 { SplitOnce(a[1..], b[1..]); }
    assert a == [a[0]] + a[1..] && b == [b[0]] + b[1..];
  }

  // -------------------------------------------------------------------------------------------------
  // Filters.
  // -------------------------------------------------------------------------------------------------

  predicate Decimal(s: string) {
    s != [] && forall k :: 0 <= k < |s| ==> '0' <= s[k] <= '9'
  }

  predicate IsUnit(c: char) { c == 'k' || c == 'K' || c == 'm' || c == 'M' || c == 'g' || c == 'G' }

  predicate Scaled(s: string) {
    Decimal(if s != [] && IsUnit(s[|s| - 1]) then s[..|s| - 1] else s)
  }

  predicate IsObjectType(s: string) {
    s == "tag" || s == "commit" || s == "tree" || s == "blob"
  }

  predicate IsSparse(s: string) {
    s != [] && 0 as char !in s
  }

  datatype Filter =
    | BlobNone
    | BlobLimit(size: string)
    | ObjectType(kind: string)
    | Tree(depth: string)
    | Sparse(oid: string)
    | Combine(filters: seq<Filter>)

  predicate Simple(f: Filter) {
    match f
    case BlobNone => true
    case BlobLimit(size) => Scaled(size)
    case ObjectType(kind) => IsObjectType(kind)
    case Tree(depth) => Decimal(depth)
    case Sparse(oid) => IsSparse(oid)
    case Combine(_) => false
  }

  /** The text of a filter that combines no others. */
  function SimpleText(f: Filter): string
    requires !f.Combine?
  {
    match f
    case BlobNone => "blob:none"
    case BlobLimit(size) => "blob:limit=" + size
    case ObjectType(kind) => "object:type=" + kind
    case Tree(depth) => "tree:" + depth
    case Sparse(oid) => "sparse:oid=" + oid
  }

  /** The text means the filter. */
  ghost predicate Denotes(f: Filter, s: string)
    decreases f, 1
  {
    if f.Combine? then exists parts :: DenotesAll(f, f.filters, parts, s) else Simple(f) && s == SimpleText(f)
  }

  /** The parts, joined, mean the filters. */
  ghost predicate DenotesAll(f: Filter, filters: seq<Filter>, parts: seq<string>, s: string)
    requires f == Combine(filters)
    decreases f, 0
  {
    && |parts| == |filters| > 0 && s == "combine:" + Join(parts)
    && forall i :: 0 <= i < |parts| ==> '+' !in parts[i] && parts[i] != [] && DenotesPart(filters[i], parts[i])
  }

  /** The text, decoded, means the filter. */
  ghost predicate DenotesPart(f: Filter, part: string)
    decreases f, 2
  {
    exists s :: Encodes(part, s) && Denotes(f, s)
  }

  /** How deep filters are combined. */
  function Nesting(f: Filter): nat
    decreases f, 1
  {
    if f.Combine? then 1 + Deepest(f, f.filters, |f.filters|) else 0
  }

  function Deepest(f: Filter, filters: seq<Filter>, n: nat): (r: nat)
    requires f == Combine(filters) && n <= |filters|
    ensures forall i :: 0 <= i < n ==> Nesting(filters[i]) <= r
    ensures n > 0 ==> exists i :: 0 <= i < n && Nesting(filters[i]) == r
    decreases f, 0, n
  {
    if n == 0 then 0
    else
      var r, d := Deepest(f, filters, n - 1), Nesting(filters[n - 1]);
      if n == 1 || r < d then d else r
  }

  // -------------------------------------------------------------------------------------------------
  // Validation.
  // -------------------------------------------------------------------------------------------------

  const MAX_DEPTH: nat := 8

  predicate ValidSpec(spec: string, depth: nat)
    decreases MAX_DEPTH + 1 - depth, 1
  {
    if spec == [] || depth > MAX_DEPTH then false
    else if "combine:" <= spec then ValidCombination(spec[8..], depth + 1)
    else ValidSimple(spec)
  }

  /** Filters that combine no others, whose prefixes exclude each other and that of those which do. */
  predicate ValidSimple(spec: string) {
    if spec == "blob:none" then true
    else if "blob:limit=" <= spec then Scaled(spec[11..])
    else if "object:type=" <= spec then IsObjectType(spec[12..])
    else if "tree:" <= spec then Decimal(spec[5..])
    else if "sparse:oid=" <= spec then IsSparse(spec[11..])
    else false
  }

  predicate ValidCombination(specs: string, depth: nat)
    requires depth <= MAX_DEPTH + 1
    decreases MAX_DEPTH + 1 - depth, 3
  {
    specs != [] && var parts := Split(specs); forall i :: 0 <= i < |parts| ==> ValidPart(parts[i], depth)
  }

  predicate ValidPart(part: string, depth: nat)
    requires depth <= MAX_DEPTH + 1
    decreases MAX_DEPTH + 1 - depth, 2
  {
    part != [] && Decoded(part, 0).Some? && ValidSpec(Decoded(part, 0).value, depth)
  }

  lemma PartDecodes(part: string, s: string)
    ensures Encodes(part, s) <==> Decoded(part, 0) == Some(s)
  {
    assert part[0..] == part;
    DecodedIsEncoded(part, 0, s);
  }

  /** What the text of a filter begins with tells its kind. */
  lemma KindShows(f: Filter)
    requires !f.Combine?
    ensures var s := SimpleText(f);
            && (f.BlobNone? <==> s == "blob:none") && (f.BlobLimit? <==> "blob:limit=" <= s)
            && (f.ObjectType? <==> "object:type=" <= s) && (f.Tree? <==> "tree:" <= s)
            && (f.Sparse? <==> "sparse:oid=" <= s) && !("combine:" <= s)
  {
    var s := SimpleText(f);
    match f
    case BlobNone => assert s[0] == 'b' && s[5] == 'n' && "blob:limit="[5] == 'l';
    case BlobLimit(_) => assert s[0] == 'b' && s[5] == 'l' && "blob:none"[5] == 'n' && "blob:limit=" <= s;
    case ObjectType(_) => assert s[0] == 'o' && "object:type=" <= s;
    case Tree(_) => assert s[0] == 't' && "tree:" <= s;
    case Sparse(_) => assert s[0] == 's' && "sparse:oid=" <= s;
  }

  lemma SimpleOnce(f: Filter, g: Filter)
    requires !f.Combine? && !g.Combine? && SimpleText(f) == SimpleText(g)
    ensures f == g
  {
    var s := SimpleText(f);
    KindShows(f);
    KindShows(g);
    match f
    case BlobNone =>
    case BlobLimit(size) => assert s[11..] == size == g.size;
    case ObjectType(kind) => assert s[12..] == kind == g.kind;
    case Tree(depth) => assert s[5..] == depth == g.depth;
    case Sparse(oid) => assert s[11..] == oid == g.oid;
  }

  lemma SimpleIsValid(f: Filter)
    requires !f.Combine?
    ensures ValidSimple(SimpleText(f)) <==> Simple(f)
    ensures SimpleText(f) != [] && !("combine:" <= SimpleText(f))
  {
    var s := SimpleText(f);
    KindShows(f);
    match f
    case BlobNone =>
    case BlobLimit(size) => assert s[11..] == size;
    case ObjectType(kind) => assert s[12..] == kind;
    case Tree(d) => assert s[5..] == d;
    case Sparse(oid) => assert s[11..] == oid;
  }

  lemma CombineShows(f: Filter, parts: seq<string>, s: string)
    requires f.Combine? && DenotesAll(f, f.filters, parts, s)
    ensures "combine:" <= s && s[8..] == Join(parts) && Join(parts) != [] && Split(s[8..]) == parts
  {
    FirstPart(parts);
    SplitOnce(Split(s[8..]), parts);
  }

  lemma CombineIs(f: Filter, s: string)
    requires Denotes(f, s)
    ensures f.Combine? <==> "combine:" <= s
  {
    if f.Combine? {
      var parts :| DenotesAll(f, f.filters, parts, s);
      CombineShows(f, parts, s);
    } else {
      KindShows(f);
    }
  }

  /** A text has only one meaning. */
  lemma {:induction false} MeansOne(f: Filter, g: Filter, s: string)
    requires Denotes(f, s) && Denotes(g, s)
    ensures f == g
    decreases f, 0
  {
    CombineIs(f, s);
    CombineIs(g, s);
    if f.Combine? {
      var a :| DenotesAll(f, f.filters, a, s);
      CombineShows(f, a, s);
      var b :| DenotesAll(g, g.filters, b, s);
      CombineShows(g, b, s);
      forall i | 0 <= i < |a|
        ensures f.filters[i] == g.filters[i]
      {
        PartMeansOne(f.filters[i], g.filters[i], a[i]);
      }
    } else {
      SimpleOnce(f, g);
    }
  }

  lemma {:induction false} PartMeansOne(f: Filter, g: Filter, part: string)
    requires DenotesPart(f, part) && DenotesPart(g, part)
    ensures f == g
    decreases f, 1
  {
    var s :| Encodes(part, s) && Denotes(f, s);
    var t :| Encodes(part, t) && Denotes(g, t);
    PartDecodes(part, s);
    PartDecodes(part, t);
    MeansOne(f, g, s);
  }

  lemma ValidIsSimple(s: string) returns (f: Filter)
    requires ValidSimple(s)
    ensures Simple(f) && s == SimpleText(f)
  {
    f := if s == "blob:none" then BlobNone
         else if "blob:limit=" <= s then BlobLimit(s[11..])
         else if "object:type=" <= s then ObjectType(s[12..])
         else if "tree:" <= s then Tree(s[5..])
         else Sparse(s[11..]);
  }

  /** Valid texts mean a filter that is not nested too deep. */
  lemma {:induction false} ValidMeans(s: string, depth: nat) returns (f: Filter)
    requires ValidSpec(s, depth)
    ensures Denotes(f, s) && Nesting(f) + depth <= MAX_DEPTH
    decreases MAX_DEPTH + 1 - depth, 1
  {
    if "combine:" <= s {
      var parts := Split(s[8..]);
      var filters := PartsMean(parts, |parts|, depth + 1);
      f := Combine(filters);
      assert DenotesAll(f, filters, parts, s);
      var i :| 0 <= i < |filters| && Nesting(filters[i]) == Deepest(f, filters, |filters|);
    } else {
      f := ValidIsSimple(s);
    }
  }

  lemma {:induction false} PartsMean(parts: seq<string>, n: nat, depth: nat) returns (filters: seq<Filter>)
    requires n <= |parts| && depth <= MAX_DEPTH + 1 && forall i :: 0 <= i < |parts| ==> ValidPart(parts[i], depth)
    ensures |filters| == n
    ensures forall i :: 0 <= i < n ==> DenotesPart(filters[i], parts[i]) && Nesting(filters[i]) + depth <= MAX_DEPTH
    decreases MAX_DEPTH + 1 - depth, 2, n
  {
    if n == 0 { return []; }
    var init := PartsMean(parts, n - 1, depth);
    var s := Decoded(parts[n - 1], 0).value;
    PartDecodes(parts[n - 1], s);
    assert ValidPart(parts[n - 1], depth);
    var f := ValidMeans(s, depth);
    filters := init + [f];
  }

  /** And the texts of these are valid. */
  lemma {:induction false} MeaningIsValid(f: Filter, s: string, depth: nat)
    requires Denotes(f, s) && Nesting(f) + depth <= MAX_DEPTH
    ensures ValidSpec(s, depth)
    decreases f, 0
  {
    if f.Combine? {
      var parts :| DenotesAll(f, f.filters, parts, s);
      CombineShows(f, parts, s);
      forall i | 0 <= i < |parts|
        ensures ValidPart(parts[i], depth + 1)
      {
        PartIsValid(f.filters[i], parts[i], depth + 1);
      }
    } else {
      SimpleIsValid(f);
    }
  }

  lemma {:induction false} PartIsValid(f: Filter, part: string, depth: nat)
    requires part != [] && DenotesPart(f, part) && Nesting(f) + depth <= MAX_DEPTH
    ensures ValidPart(part, depth)
    decreases f, 1
  {
    var sub :| Encodes(part, sub) && Denotes(f, sub);
    PartDecodes(part, sub);
    MeaningIsValid(f, sub, depth);
  }

  ghost predicate IsFilter(s: string) {
    exists f :: Denotes(f, s) && Nesting(f) <= MAX_DEPTH
  }

  /** Exactly the texts of filters that nest at most 8 deep are valid. */
  lemma ValidIsFilter(s: string)
    ensures ValidSpec(s, 0) <==> IsFilter(s)
  {
    if ValidSpec(s, 0) {
      var f := ValidMeans(s, 0);
    }
    if f :| Denotes(f, s) && Nesting(f) <= MAX_DEPTH {
      MeaningIsValid(f, s, 0);
    }
  }

  // -------------------------------------------------------------------------------------------------
  // Writing filters.
  // -------------------------------------------------------------------------------------------------

  /** Filters that have a text. */
  predicate Proper(f: Filter)
    decreases f
  {
    if f.Combine? then f.filters != [] && forall i :: 0 <= i < |f.filters| ==> Proper(f.filters[i])
    else Simple(f) && IsBytes(SimpleText(f))
  }

  lemma {:induction false} JoinIsBytes(parts: seq<string>)
    requires parts != [] && forall i :: 0 <= i < |parts| ==> IsBytes(parts[i])
    ensures IsBytes(Join(parts))
  {
    if |parts| > 1 { JoinIsBytes(parts[1..]); }
  }

  function Render(f: Filter, reserved: char -> bool): (s: string)
    requires Proper(f) && Reserves(reserved)
    ensures IsBytes(s) && s != []
    decreases f, 1
  {
    if f.Combine? then
      var parts := RenderAll(f, f.filters, |f.filters|, reserved);
      JoinIsBytes(parts);
      "combine:" + Join(parts)
    else SimpleIsValid(f); SimpleText(f)
  }

  function RenderAll(f: Filter, filters: seq<Filter>, n: nat, reserved: char -> bool): (parts: seq<string>)
    requires f == Combine(filters) && Proper(f) && Reserves(reserved) && n <= |filters|
    ensures |parts| == n && forall i :: 0 <= i < n ==>
              parts[i] == PercentEncode(Render(filters[i], reserved), reserved) && IsBytes(parts[i])
    decreases f, 0, n
  {
    if n == 0 then []
    else
      var s := Render(filters[n - 1], reserved);
      EncodedIsDecoded(s, reserved);
      RenderAll(f, filters, n - 1, reserved) + [PercentEncode(s, reserved)]
  }

  /** What is written means what was written. */
  lemma {:induction false} RenderMeans(f: Filter, reserved: char -> bool)
    requires Proper(f) && Reserves(reserved)
    ensures Denotes(f, Render(f, reserved))
    decreases f
  {
    if f.Combine? {
      var parts := RenderAll(f, f.filters, |f.filters|, reserved);
      forall i | 0 <= i < |parts|
        ensures '+' !in parts[i] && parts[i] != [] && DenotesPart(f.filters[i], parts[i])
      {
        RenderMeans(f.filters[i], reserved);
        EncodedIsDecoded(Render(f.filters[i], reserved), reserved);
      }
      assert DenotesAll(f, f.filters, parts, Render(f, reserved));
    }
  }

  /** A filter that is written, whatever else is encoded, is valid exactly if it is not too deep. */
  lemma RenderIsValid(f: Filter, reserved: char -> bool)
    requires Proper(f) && Reserves(reserved)
    ensures ValidSpec(Render(f, reserved), 0) <==> Nesting(f) <= MAX_DEPTH
  {
    RenderMeans(f, reserved);
    if ValidSpec(Render(f, reserved), 0) {
      var g := ValidMeans(Render(f, reserved), 0);
      MeansOne(f, g, Render(f, reserved));
    }
    if Nesting(f) <= MAX_DEPTH { MeaningIsValid(f, Render(f, reserved), 0); }
  }

  // -------------------------------------------------------------------------------------------------
  // Capabilities.
  // -------------------------------------------------------------------------------------------------

  datatype Format = Sha1 | Sha256

  function HexLen(format: Format): (n: nat)
    ensures n > 0
  {
    if format == Sha1 then 40 else 64
  }

  function ParseFormat(s: string): Option<Format> {
    if s == "sha1" || s == "SHA1" || s == "SHA-1" then Some(Sha1)
    else if s == "sha256" || s == "SHA256" || s == "SHA-256" then Some(Sha256)
    else None
  }

  datatype CapabilityError = UnsupportedObjectFormat | ObjectFormatMismatch(expected: Format, actual: Format)
                           | InvalidFilter | UnsupportedCapability

  /** Nothing, if the capability is valid. */
  function CheckCapability(capability: string, format: Format): Option<CapabilityError> {
    if "object-format=" <= capability then
      match ParseFormat(capability[14..])
      case None => Some(UnsupportedObjectFormat)
      case Some(actual) => if actual == format then None else Some(ObjectFormatMismatch(format, actual))
    else if "filter=" <= capability then
      if ValidSpec(capability[7..], 0) then None else Some(InvalidFilter)
    else Some(UnsupportedCapability)
  }

  /** A capability that names the object format of the bundle, or a filter. */
  ghost predicate Supported(capability: string, format: Format) {
    || ("object-format=" <= capability && ParseFormat(capability[14..]) == Some(format))
    || ("filter=" <= capability && IsFilter(capability[7..]))
  }

  lemma CheckedIsSupported(capability: string, format: Format)
    ensures CheckCapability(capability, format).None? <==> Supported(capability, format)
  {
    if "filter=" <= capability {
      assert capability[0] == 'f' && "object-format="[0] == 'o';
      assert !("object-format=" <= capability);
      ValidIsFilter(capability[7..]);
    }
  }
}
