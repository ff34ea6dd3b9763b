/**
 * `gix-blame/src/types.rs`: the line ranges to blame, kept sorted and with gaps between them. Ranges without a line,
 * whose end is not behind their start, are accepted as well.
 */
module BlameRanges {
  import opened Wrappers

  /** The lines from `start` up to but excluding `end`, counted from zero. */
  datatype Range = Range(start: nat, end: nat)

  predicate In(line: nat, r: Range) {
    r.start <= line < r.end
  }

  /** A line of the blamed part of the file. */
  ghost predicate Covered(rs: seq<Range>, line: nat) {
    exists k :: 0 <= k < |rs| && In(line, rs[k])
  }

  /** There is at least one line between the ranges. */
  predicate Apart(a: Range, b: Range) {
    a.end < b.start || b.end < a.start
  }

  /** There is a line in the range. */
  predicate Solid(r: Range) {
    r.start < r.end
  }

  predicate Sorted(rs: seq<Range>) {
    forall i, j :: 0 <= i < j < |rs| ==> rs[i].start <= rs[j].start
  }

  /** Sorted ranges, with gaps between those that have a line. */
  predicate Tidy(rs: seq<Range>) {
    Sorted(rs) && forall i, j :: 0 <= i < j < |rs| && Solid(rs[i]) && Solid(rs[j]) ==> rs[i].end < rs[j].start
  }

  predicate AllSolid(rs: seq<Range>) {
    forall x :: x in rs ==> Solid(x)
  }

  /** The normal form: sorted, non-empty ranges with gaps between them. */
  ghost predicate Normal(rs: seq<Range>) {
    && (forall k :: 0 <= k < |rs| ==> rs[k].start < rs[k].end)
    && (forall i, j :: 0 <= i < j < |rs| ==> rs[i].end < rs[j].start)
  }

  /** The first line that is not covered any more, seen from the start of a range. */
  lemma EndIsUncovered(rs: seq<Range>, k: nat)
    requires Normal(rs) && k < |rs|
    ensures !Covered(rs, rs[k].end)
    ensures rs[k].start > 0 ==> !Covered(rs, rs[k].start - 1)
  {
    forall x | 0 <= x < |rs| ensures !In(rs[k].end, rs[x]) && (rs[k].start > 0 ==> !In(rs[k].start - 1, rs[x])) {
      if x < k { assert rs[x].end < rs[k].start; }
      if k < x { assert rs[k].end < rs[x].start; }
    }
  }

  ghost predicate SameLines(a: seq<Range>, b: seq<Range>) {
    forall line: nat :: Covered(a, line) == Covered(b, line)
  }

  /** Uncovered lines around a line of a range are outside that range. */
  lemma Bounds(rs: seq<Range>, x: nat, line: nat, above: nat)
    requires x < |rs| && In(line, rs[x]) && line <= above && !Covered(rs, above)
    ensures rs[x].end <= above
    ensures line > 0 && !Covered(rs, line - 1) ==> rs[x].start == line
  {
  }

  /** A range of one normal form is a range of the other. */
  lemma RangeShared(a: seq<Range>, b: seq<Range>, k: nat) returns (x: nat)
    requires Normal(a) && Normal(b) && SameLines(a, b) && k < |a|
    ensures x < |b| && b[x] == a[k]
  {
    assert In(a[k].start, a[k]);
    assert Covered(a, a[k].start) && Covered(b, a[k].start);
    x :| 0 <= x < |b| && In(a[k].start, b[x]);
    EndIsUncovered(a, k);
    EndIsUncovered(b, x);
    assert !Covered(b, a[k].end) && !Covered(a, b[x].end);
    Bounds(b, x, a[k].start, a[k].end);
    Bounds(a, k, a[k].start, b[x].end);
  }

  lemma {:induction false} SameUpTo(a: seq<Range>, b: seq<Range>, n: nat)
    requires Normal(a) && Normal(b) && SameLines(a, b) && n <= |a|
    ensures n <= |b| && forall k :: 0 <= k < n ==> a[k] == b[k]
  {
    if n > 0 {
      SameUpTo(a, b, n - 1);
      var x := RangeShared(a, b, n - 1);
      assert x >= n - 1;
      var y := RangeShared(b, a, n - 1);
      assert y >= n - 1;
    }
  }

  /** Only one normal form covers the given lines. */
  lemma NormalIsUnique(a: seq<Range>, b: seq<Range>)
    requires Normal(a) && Normal(b) && SameLines(a, b)
    ensures a == b
  {
    SameUpTo(a, b, |a|);
    SameUpTo(b, a, |b|);
  }

  lemma NormalIsTidy(rs: seq<Range>)
    ensures Normal(rs) <==> Tidy(rs) && AllSolid(rs)
  {
    if Normal(rs) {
      assert forall i, j :: 0 <= i < j < |rs| ==> rs[i].start < rs[i].end < rs[j].start;
    }
    if AllSolid(rs) {
      assert forall k :: 0 <= k < |rs| ==> rs[k] in rs && Solid(rs[k]);
    }
  }

  // -------------------------------------------------------------------------------------------------
  // Merging a range.
  // -------------------------------------------------------------------------------------------------

  /** The lines of the new range and of all ranges it overlaps or touches among the first `n`. */
  function Merged(rs: seq<Range>, r: Range, n: nat): (m: Range)
    requires n <= |rs|
    ensures m.start <= r.start && r.end <= m.end
  {
    if n == 0 then r
    else
      var acc, x := Merged(rs, r, n - 1), rs[n - 1];
      if Apart(r, x) then acc
      else Range(if x.start < acc.start then x.start else acc.start, if x.end > acc.end then x.end else acc.end)
  }

  /** A range without a line adds nothing to one that it is merged with. */
  lemma Swallowed(acc: Range, r: Range, x: Range)
    requires acc.start <= r.start && r.end <= acc.end && !Apart(r, x) && !Solid(x)
    ensures acc.start <= x.start && x.end <= acc.end
  {
  }

  /** Ranges stay apart from the merged one on the side where they were apart from the new one. */
  lemma {:induction false} MergedApart(rs: seq<Range>, r: Range, n: nat, k: nat)
    requires Tidy(rs) && n <= |rs| && k < |rs| && Solid(rs[k])
    ensures rs[k].end < r.start ==> rs[k].end < Merged(rs, r, n).start
    ensures r.end < rs[k].start ==> Merged(rs, r, n).end < rs[k].start
  {
    if n > 0 {
      MergedApart(rs, r, n - 1, k);
      var x := rs[n - 1];
      if !Apart(r, x) && !Solid(x) { Swallowed(Merged(rs, r, n - 1), r, x); }
      assert Solid(x) && n - 1 < k ==> x.end < rs[k].start;
      assert Solid(x) && k < n - 1 ==> rs[k].end < x.start;
    }
  }

  /** A range without a line that is merged with one that has some becomes that one. */
  lemma {:induction false} MergedInto(rs: seq<Range>, r: Range, n: nat, k: nat)
    requires Tidy(rs) && n <= |rs| && k < |rs| && !Solid(r) && Solid(rs[k]) && !Apart(r, rs[k])
    ensures Merged(rs, r, n) == if k < n then rs[k] else r
  {
    if n > 0 {
      MergedInto(rs, r, n - 1, k);
      var x := rs[n - 1];
      if !Apart(r, x) && !Solid(x) { Swallowed(Merged(rs, r, n - 1), r, x); }
      assert Solid(x) && n - 1 < k ==> x.end < rs[k].start;
      assert Solid(x) && k < n - 1 ==> rs[k].end < x.start;
    }
  }

  /** There is a range with a line that the new one is merged with. */
  predicate Touches(rs: seq<Range>, r: Range, n: nat)
    requires n <= |rs|
  {
    exists k :: 0 <= k < n && Solid(rs[k]) && !Apart(r, rs[k])
  }

  lemma {:induction false} MergedAlone(rs: seq<Range>, r: Range, n: nat)
    requires n <= |rs| && !Solid(r) && !Touches(rs, r, n)
    ensures Merged(rs, r, n) == r
  {
    if n > 0 {
      MergedAlone(rs, r, n - 1);
      if !Apart(r, rs[n - 1]) { Swallowed(r, r, rs[n - 1]); }
    }
  }

  /** One of the first `n` ranges that is merged with the new one has the line. */
  ghost predicate Joined(rs: seq<Range>, r: Range, n: nat, line: nat)
    requires n <= |rs|
  {
    exists k :: 0 <= k < n && !Apart(r, rs[k]) && In(line, rs[k])
  }

  lemma {:induction false} SolidCovers(rs: seq<Range>, r: Range, n: nat, line: nat)
    requires Solid(r) && n <= |rs|
    ensures In(line, Merged(rs, r, n)) <==> In(line, r) || Joined(rs, r, n, line)
  {
    if n > 0 {
      SolidCovers(rs, r, n - 1, line);
      var x := rs[n - 1];
      if !Apart(r, x) && !Solid(x) { Swallowed(Merged(rs, r, n - 1), r, x); }
    }
  }

  lemma MergedCovers(rs: seq<Range>, r: Range, line: nat)
    requires Tidy(rs)
    ensures In(line, Merged(rs, r, |rs|)) <==> In(line, r) || Joined(rs, r, |rs|, line)
  {
    if Solid(r) {
      SolidCovers(rs, r, |rs|, line);
    } else if Touches(rs, r, |rs|) {
      var k :| 0 <= k < |rs| && Solid(rs[k]) && !Apart(r, rs[k]);
      MergedInto(rs, r, |rs|, k);
      forall x | 0 <= x < |rs| && !Apart(r, rs[x]) && In(line, rs[x])
        ensures x == k
      {
        MergedInto(rs, r, |rs|, x);
      }
    } else {
      MergedAlone(rs, r, |rs|);
    }
  }

  /** The merged range has a line exactly if the new one has, or one it is merged with. */
  lemma MergedSolid(rs: seq<Range>, r: Range)
    requires Tidy(rs)
    ensures Solid(Merged(rs, r, |rs|)) <==> Solid(r) || Touches(rs, r, |rs|)
  {
    if !Solid(r) && Touches(rs, r, |rs|) {
      var k :| 0 <= k < |rs| && Solid(rs[k]) && !Apart(r, rs[k]);
      MergedInto(rs, r, |rs|, k);
    } else if !Solid(r) {
      MergedAlone(rs, r, |rs|);
    }
  }

  // -------------------------------------------------------------------------------------------------
  // Sorting.
  // -------------------------------------------------------------------------------------------------

  /** Ranges that have a line are apart. */
  predicate Clear(a: Range, b: Range) {
    Solid(a) && Solid(b) ==> Apart(a, b)
  }

  predicate PairwiseClear(rs: seq<Range>) {
    forall i, j :: 0 <= i < j < |rs| ==> Clear(rs[i], rs[j])
  }

  method Insert(rs: seq<Range>, r: Range) returns (out: seq<Range>)
    requires Tidy(rs) && forall x :: x in rs ==> Clear(x, r)
    ensures Tidy(out) && |out| == |rs| + 1 && forall x :: x in out <==> x in rs || x == r
  {
    var k := 0;
    while k < |rs| && rs[k].start <= r.start
      invariant k <= |rs| && forall x :: 0 <= x < k ==> rs[x].start <= r.start
    {
      k := k + 1;
    }
    out := rs[..k] + [r] + rs[k..];
    InsertedMembers(rs, r, k);
    InsertedPlaces(rs, r, k);
    InsertTidy(rs, r, k, out);
  }

  /** `out` is `rs` with `r` put in at `k`. */
  ghost predicate InsertedAt(rs: seq<Range>, r: Range, k: nat, out: seq<Range>) {
    && k <= |rs| && |out| == |rs| + 1 && out[k] == r
    && (forall x :: 0 <= x < k ==> out[x] == rs[x]) && (forall x :: k < x < |out| ==> out[x] == rs[x - 1])
  }

  lemma InsertedPlaces(rs: seq<Range>, r: Range, k: nat)
    requires k <= |rs|
    ensures InsertedAt(rs, r, k, rs[..k] + [r] + rs[k..])
  {
  }

  lemma InsertedMembers(rs: seq<Range>, r: Range, k: nat)
    requires k <= |rs|
    ensures forall x :: x in rs[..k] + [r] + rs[k..] <==> x in rs || x == r
  {
    assert rs == rs[..k] + rs[k..];
  }

  lemma InsertTidy(rs: seq<Range>, r: Range, k: nat, out: seq<Range>)
    requires Tidy(rs) && forall x :: x in rs ==> Clear(x, r)
    requires k <= |rs| && (forall x :: 0 <= x < k ==> rs[x].start <= r.start) && (k < |rs| ==> r.start < rs[k].start)
    requires InsertedAt(rs, r, k, out)
    ensures Tidy(out)
  {
    forall i, j | 0 <= i < j < |out|
      ensures out[i].start <= out[j].start && (Solid(out[i]) && Solid(out[j]) ==> out[i].end < out[j].start)
    {
      var x, y := if i < k then i else i - 1, if j < k then j else j - 1;
      if i == k {
        assert rs[y] in rs && rs[k].start <= rs[y].start;
      } else if j == k {
        assert rs[x] in rs;
      } else {
        assert out[i] == rs[x] && out[j] == rs[y];
      }
    }
  }

  /** Sorting tidies ranges that are apart from each other. */
  method SortByStart(rs: seq<Range>) returns (out: seq<Range>)
    requires PairwiseClear(rs)
    ensures Tidy(out) && |out| == |rs| && forall x :: x in out <==> x in rs
  {
    out := [];
    for i := 0 to |rs|
      invariant Tidy(out) && |out| == i
      invariant forall x :: x in out <==> x in rs[..i]
    {
      forall x | x in out
        ensures Clear(x, rs[i])
      {
        assert x in rs[..i];
      }
      out := Insert(out, rs[i]);
      assert rs[..i + 1] == rs[..i] + [rs[i]];
    }
    assert rs[..|rs|] == rs;
  }

  // -------------------------------------------------------------------------------------------------
  // Merging and sorting.
  // -------------------------------------------------------------------------------------------------

  /** The ranges among the first `n` that neither overlap nor touch the new one. */
  function Others(rs: seq<Range>, r: Range, n: nat): seq<Range>
    requires n <= |rs|
  {
    if n == 0 then [] else Others(rs, r, n - 1) + if Apart(r, rs[n - 1]) then [rs[n - 1]] else []
  }

  /** All ranges behind merging a new one. */
  function MergeAll(rs: seq<Range>, r: Range): seq<Range> {
    Others(rs, r, |rs|) + [Merged(rs, r, |rs|)]
  }

  lemma {:induction false} OthersAre(rs: seq<Range>, r: Range, n: nat)
    requires n <= |rs|
    ensures forall x :: x in Others(rs, r, n) <==> exists k :: 0 <= k < n && Apart(r, rs[k]) && x == rs[k]
  {
    if n > 0 { OthersAre(rs, r, n - 1); }
  }

  lemma {:induction false} OthersClear(rs: seq<Range>, r: Range, n: nat)
    requires Tidy(rs) && n <= |rs|
    ensures PairwiseClear(Others(rs, r, n))
  {
    if n > 0 {
      OthersClear(rs, r, n - 1);
      OthersAre(rs, r, n - 1);
      var init := Others(rs, r, n - 1);
      forall x | 0 <= x < |init|
        ensures Clear(init[x], rs[n - 1])
      {
        assert init[x] in init;
        var k :| 0 <= k < n - 1 && Apart(r, rs[k]) && init[x] == rs[k];
      }
    }
  }

  lemma MergeClear(rs: seq<Range>, r: Range)
    requires Tidy(rs)
    ensures PairwiseClear(MergeAll(rs, r))
  {
    var others, merged := Others(rs, r, |rs|), Merged(rs, r, |rs|);
    OthersClear(rs, r, |rs|);
    OthersAre(rs, r, |rs|);
    forall x | 0 <= x < |others|
      ensures Clear(others[x], merged)
    {
      assert others[x] in others;
      var k :| 0 <= k < |rs| && Apart(r, rs[k]) && others[x] == rs[k];
      if Solid(rs[k]) { MergedApart(rs, r, |rs|, k); }
    }
  }

  lemma MergeCovers(rs: seq<Range>, r: Range, line: nat)
    requires Tidy(rs)
    ensures Covered(MergeAll(rs, r), line) <==> Covered(rs, line) || In(line, r)
  {
    var others := Others(rs, r, |rs|);
    MergedCovers(rs, r, line);
    OthersAre(rs, r, |rs|);
    CoveredMore(others, Merged(rs, r, |rs|), line);
    if Covered(others, line) {
      var x :| 0 <= x < |others| && In(line, others[x]);
      assert others[x] in others;
    }
    if Covered(rs, line) {
      var k :| 0 <= k < |rs| && In(line, rs[k]);
      if Apart(r, rs[k]) {
        assert rs[k] in others;
      }
    }
  }

  lemma CoveredMore(rs: seq<Range>, r: Range, line: nat)
    ensures Covered(rs + [r], line) <==> Covered(rs, line) || In(line, r)
  {
    var all := rs + [r];
    assert all[|rs|] == r;
    assert forall k :: 0 <= k < |rs| ==> all[k] == rs[k];
  }

  /** Every range without a line disappears. */
  predicate Absorbs(rs: seq<Range>, r: Range) {
    (Solid(r) || Touches(rs, r, |rs|)) && forall k :: 0 <= k < |rs| ==> Solid(rs[k]) || !Apart(r, rs[k])
  }

  lemma MergeSolid(rs: seq<Range>, r: Range)
    requires Tidy(rs)
    ensures AllSolid(MergeAll(rs, r)) <==> Absorbs(rs, r)
  {
    var others, all := Others(rs, r, |rs|), MergeAll(rs, r);
    MergedSolid(rs, r);
    OthersAre(rs, r, |rs|);
    assert forall x :: x in all <==> x in others || x == Merged(rs, r, |rs|);
    if AllSolid(all) {
      forall k | 0 <= k < |rs|
        ensures Solid(rs[k]) || !Apart(r, rs[k])
      {
        assert Apart(r, rs[k]) ==> rs[k] in others;
      }
    }
  }

  /** What is sorted after merging is apart, and covers the old lines and the new ones. */
  lemma MergeIsExact(rs: seq<Range>, r: Range)
    requires Tidy(rs)
    ensures PairwiseClear(MergeAll(rs, r)) && (AllSolid(MergeAll(rs, r)) <==> Absorbs(rs, r))
    ensures forall line: nat :: Covered(MergeAll(rs, r), line) <==> Covered(rs, line) || In(line, r)
  {
    MergeClear(rs, r);
    MergeSolid(rs, r);
    forall line: nat
      ensures Covered(MergeAll(rs, r), line) <==> Covered(rs, line) || In(line, r)
    {
      MergeCovers(rs, r, line);
    }
  }

  lemma SameMembersCover(a: seq<Range>, b: seq<Range>)
    requires forall x :: x in a <==> x in b
    ensures SameLines(a, b)
  {
    forall line: nat ensures Covered(a, line) == Covered(b, line) {
      if Covered(a, line) {
        var k :| 0 <= k < |a| && In(line, a[k]);
        assert a[k] in b;
      }
      if Covered(b, line) {
        var k :| 0 <= k < |b| && In(line, b[k]);
        assert b[k] in a;
      }
    }
  }

  // -------------------------------------------------------------------------------------------------
  // The ranges to blame.
  // -------------------------------------------------------------------------------------------------

  datatype Selection = WholeFile | PartialFile(ranges: seq<Range>)

  class BlameRanges {
    var selection: Selection

    ghost predicate Valid()
      reads this
    {
      selection.PartialFile? ==> Tidy(selection.ranges)
    }

    ghost predicate InNormalForm()
      reads this
    {
      selection.PartialFile? && Normal(selection.ranges)
    }

    /** Whether a line was asked for explicitly. */
    ghost predicate Asked(line: nat)
      reads this
    {
      selection.PartialFile? && Covered(selection.ranges, line)
    }

    constructor ()
      ensures selection == WholeFile
    {
      selection := WholeFile;
    }

    method Merge(r: Range)
      requires Valid()
      modifies this
      ensures Valid() && selection.PartialFile?
      ensures old(selection.WholeFile?) ==> selection == PartialFile([r])    // from the whole file to this range
      ensures forall line: nat :: Asked(line) <==> old(Asked(line)) || In(line, r)
      ensures old(selection.PartialFile?) ==> (InNormalForm() <==> Absorbs(old(selection).ranges, r))
    {
      if selection.WholeFile? {
        selection := PartialFile([r]);
        assert selection.ranges[0] == r;
        return;
      }
      var rs := selection.ranges;
      MergeIsExact(rs, r);
      var others, merged := [], r;
      for i := 0 to |rs|
        invariant others == Others(rs, r, i)
      {
        if Apart(r, rs[i]) { others := others + [rs[i]]; }
      }
      for i := 0 to |rs|
        invariant merged == Merged(rs, r, i)
      {
        if !Apart(r, rs[i]) {
          merged := Range(if rs[i].start < merged.start then rs[i].start else merged.start,
                          if rs[i].end > merged.end then rs[i].end else merged.end);
        }
      }
      var sorted := SortByStart(others + [merged]);
      SameMembersCover(sorted, MergeAll(rs, r));
      NormalIsTidy(sorted);
      selection := PartialFile(sorted);
    }

    /** Adds lines counted from one; line zero does not exist. */
    method AddOneBased(first: nat, last: nat) returns (ok: bool)
      requires Valid()
      modifies this
      ensures Valid()
      ensures ok <==> first != 0
      ensures !ok ==> selection == old(selection)
      ensures ok && old(selection.WholeFile?) ==> selection == PartialFile([Range(first - 1, last)])
      ensures ok ==>
        && selection.PartialFile?
        && forall line: nat :: Asked(line) <==> old(Asked(line)) || first <= line + 1 <= last
    {
      ok := first != 0;
      if ok { Merge(Range(first - 1, last)); }
    }

    /** The ranges within a file of the given length. */
    method ToZeroBased(maxLines: nat) returns (out: seq<Range>)
      requires Valid()
      ensures forall line: nat :: Covered(out, line) <==> line < maxLines && (selection.WholeFile? || Asked(line))
      ensures InNormalForm() ==> Normal(out)
    {
      if selection.WholeFile? {
        out := [Range(0, maxLines)];
        forall line: nat ensures Covered(out, line) <==> line < maxLines {
          assert In(line, out[0]) <==> line < maxLines;
        }
        return;
      }
      out := Clip(selection.ranges, maxLines);
    }
  }

  method Clip(rs: seq<Range>, maxLines: nat) returns (out: seq<Range>)
    ensures Normal(rs) ==> Normal(out)
    ensures forall line: nat :: Covered(out, line) <==> line < maxLines && Covered(rs, line)
  {
    out := [];
    for i := 0 to |rs|
      invariant out == Clipped(rs, maxLines, i)
    {
      if rs[i].end < maxLines {
        out := out + [rs[i]];
      } else if rs[i].start < maxLines {
        out := out + [Range(rs[i].start, maxLines)];
      }
    }
    if Normal(rs) { ClippedNormal(rs, maxLines, |rs|); }
    forall line: nat ensures Covered(out, line) <==> line < maxLines && Covered(rs, line) {
      ClippedCovers(rs, maxLines, |rs|, line);
    }
  }

  function Clipped(rs: seq<Range>, maxLines: nat, n: nat): seq<Range>
    requires n <= |rs|
  {
    if n == 0 then []
    else
      var r := rs[n - 1];
      Clipped(rs, maxLines, n - 1)
      + if r.end < maxLines then [r] else if r.start < maxLines then [Range(r.start, maxLines)] else []
  }

  lemma {:induction false} ClippedNormal(rs: seq<Range>, maxLines: nat, n: nat)
    requires Normal(rs) && n <= |rs|
    ensures Normal(Clipped(rs, maxLines, n))
    ensures forall k :: 0 <= k < |Clipped(rs, maxLines, n)| ==>
              exists x :: 0 <= x < n && Clipped(rs, maxLines, n)[k].end <= rs[x].end
  {
    if n > 0 { ClippedNormal(rs, maxLines, n - 1); }
  }

  lemma {:induction false} ClippedCovers(rs: seq<Range>, maxLines: nat, n: nat, line: nat)
    requires n <= |rs|
    ensures Covered(Clipped(rs, maxLines, n), line) <==> line < maxLines && exists k :: 0 <= k < n && In(line, rs[k])
  {
    if n > 0 {
      ClippedCovers(rs, maxLines, n - 1, line);
      var p, r := Clipped(rs, maxLines, n - 1), rs[n - 1];
      if r.end < maxLines {
        CoveredMore(p, r, line);
      } else if r.start < maxLines {
        CoveredMore(p, Range(r.start, maxLines), line);
      } else {
        assert Clipped(rs, maxLines, n) == p;
      }
    }
  }

  /** Adding ranges in any order covers exactly their lines. */
  method FromOneBased(ranges: seq<(nat, nat)>) returns (r: Option<BlameRanges>)
    ensures r.Some? <==> forall k :: 0 <= k < |ranges| ==> ranges[k].0 != 0
    ensures r.Some? ==> fresh(r.value) && r.value.Valid()
    ensures r.Some? && ranges == [] ==> r.value.selection == WholeFile
    ensures r.Some? && ranges != [] ==>
      && r.value.selection.PartialFile?
      && forall line: nat ::
           r.value.Asked(line) <==> exists k :: 0 <= k < |ranges| && ranges[k].0 <= line + 1 <= ranges[k].1
    ensures r.Some? && ranges != [] && (forall k :: 0 <= k < |ranges| ==> ranges[k].0 <= ranges[k].1) ==>
      r.value.InNormalForm()
  {
    var out := new BlameRanges();
    if ranges == [] { return Some(out); }
    out.selection := PartialFile([]);
    for i := 0 to |ranges|
      invariant fresh(out) && out.Valid() && out.selection.PartialFile?
      invariant forall k :: 0 <= k < i ==> ranges[k].0 != 0
      invariant forall line: nat ::
                  out.Asked(line) <==> exists k :: 0 <= k < i && ranges[k].0 <= line + 1 <= ranges[k].1
      invariant (forall k :: 0 <= k < i ==> ranges[k].0 <= ranges[k].1) ==> out.InNormalForm()
    {
      if ranges[i].0 == 0 { return None; }
      out.Merge(Range(ranges[i].0 - 1, ranges[i].1));
    }
    r := Some(out);
  }
}
