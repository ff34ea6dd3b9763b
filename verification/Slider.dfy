/**
 * `gix-imara-diff/src/postprocess.rs`: hunks of added tokens are slid up and down to merge with their
 * neighbours, to line up with removed tokens, or to where a heuristic wants them.
 */
module Slider {
  import opened DiffMarks
  import opened SliderPlaces

  /** The markers after a run `s..e` moved down by one token. */
  function Moved(marks: seq<bool>, s: nat, e: nat): (r: seq<bool>)
    requires s < e < |marks|
  {
    marks[s := false][e := true]
  }

  /** Both ranges are maximal runs with equally many unmarked tokens in front of them, and files agree in total. */
  ghost predicate Aligned(removed: seq<bool>, added: seq<bool>, h: Hunk) {
    && IsRun(removed, h.beforeStart, h.beforeEnd)
    && IsRun(added, h.afterStart, h.afterEnd)
    && h.afterStart < h.afterEnd
    && Free(removed, h.beforeStart) == Free(added, h.afterStart)
    && Free(removed, |removed|) == Free(added, |added|)
  }

  /** Exactly one token of the window is unmarked. */
  lemma KeptOne(tokens: seq<Token>, marks: seq<bool>, l: nat, k: nat, h: nat)
    requires l <= k < h <= |tokens| == |marks| && !marks[k] && AllMarked(marks, l, k) && AllMarked(marks, k + 1, h)
    ensures KeptIn(tokens, marks, l, h) == [tokens[k]]
  {
    KeptJoin(tokens, marks, l, k, h);
    KeptNone(tokens, marks, l, k);
    KeptNone(tokens, marks, k + 1, h);
  }

  /** Moving a run by one keeps the unmarked tokens, because the tokens at its ends are equal. */
  lemma MovedKeeps(tokens: seq<Token>, marks: seq<bool>, s: nat, e: nat)
    requires |tokens| == |marks| && s < e < |marks| && tokens[s] == tokens[e]
    requires AllMarked(marks, s, e) && !marks[e]
    ensures Kept(tokens, Moved(marks, s, e)) == Kept(tokens, marks)
  {
    var moved, n := Moved(marks, s, e), |marks|;
    KeptAround(tokens, marks, s, e, e);
    KeptAround(tokens, moved, s, s, e);
    KeptFrame(tokens, marks, moved, 0, s);
    KeptFrame(tokens, marks, moved, e + 1, n);
  }

  lemma KeptAround(tokens: seq<Token>, marks: seq<bool>, s: nat, k: nat, e: nat)
    requires s <= k <= e < |tokens| == |marks| && !marks[k] && AllMarked(marks, s, k) && AllMarked(marks, k + 1, e + 1)
    ensures Kept(tokens, marks) == KeptIn(tokens, marks, 0, s) + ([tokens[k]] + KeptIn(tokens, marks, e + 1, |marks|))
  {
    KeptJoin(tokens, marks, 0, s, |marks|);
    KeptJoin(tokens, marks, s, e + 1, |marks|);
    KeptOne(tokens, marks, s, k, e + 1);
  }

  lemma {:induction false} MovedFree(marks: seq<bool>, s: nat, e: nat, k: nat)
    requires s < e < |marks| && (forall x :: s <= x < e ==> marks[x]) && !marks[e] && k <= |marks|
    ensures Free(Moved(marks, s, e), k) == Free(marks, k) + (if s < k <= e then 1 else 0)
    decreases k
  {
    if k > 0 { MovedFree(marks, s, e, k - 1); }
  }

  /** `m` is what `m0` becomes when its run `s..e` moves down `q` times without touching another run. */
  ghost predicate Slid(tokens: seq<Token>, m0: seq<bool>, s: nat, e: nat, q: nat, m: seq<bool>) {
    && |m| == |m0| == |tokens| && s < e && e + q <= |m|
    && (forall x :: 0 <= x < |m| ==> (m[x] <==> if s <= x < e + q then s + q <= x else m0[x]))
    && (forall x :: e <= x < e + q ==> !m0[x]) && Slides(tokens, s, s + q, e - s)
    && IsRun(m0, s, e)
  }

  class Postprocessor {
    const tokens: seq<Token>
    const added: array<bool>
    const removed: array<bool>
    var hunk: Hunk

    constructor (tokens: seq<Token>, added: array<bool>, removed: array<bool>)
      ensures this.tokens == tokens && this.added == added && this.removed == removed && hunk == Hunk(0, 0, 0, 0)
    {
      this.tokens, this.added, this.removed, hunk := tokens, added, removed, Hunk(0, 0, 0, 0);
    }

    ghost predicate Valid()
      reads this, added, removed
    {
      && added != removed && |tokens| == added.Length
      && Free(removed[..], removed.Length) == Free(added[..], added.Length)
    }

    method SlideDown() returns (moved: bool)
      requires Valid() && Aligned(removed[..], added[..], hunk)
      modifies this, added
      ensures Valid() && Aligned(removed[..], added[..], hunk)
      ensures moved <==> old(hunk).afterEnd < added.Length && tokens[old(hunk).afterStart] == tokens[old(hunk).afterEnd]
      ensures !moved ==> hunk == old(hunk) && added[..] == old(added[..])
      ensures moved ==> added[..] == Moved(old(added[..]), old(hunk).afterStart, old(hunk).afterEnd)
      ensures moved ==> hunk.afterStart == old(hunk).afterStart + 1 && hunk.afterEnd > old(hunk).afterEnd
      ensures moved ==> Free(added[..], hunk.afterStart) == old(Free(added[..], hunk.afterStart)) + 1
      ensures Kept(tokens, added[..]) == old(Kept(tokens, added[..]))
    {
      if hunk.afterEnd >= |tokens| || tokens[hunk.afterStart] != tokens[hunk.afterEnd] { return false; }
      ghost var m0, h := added[..], hunk;
      DownHasRoom(removed[..], m0, h);
      added[hunk.afterStart], added[hunk.afterEnd] := false, true;
      assert added[..] == Moved(m0, h.afterStart, h.afterEnd);
      var end := FindHunkEnd(added, hunk.afterEnd);
      var beforeStart := hunk.beforeEnd + 1;
      var beforeEnd := FindHunkEnd(removed, beforeStart);
      hunk := Hunk(beforeStart, beforeEnd, hunk.afterStart + 1, end);
      DownAligned(removed[..], m0, h, added[..], hunk);
      MovedKeeps(tokens, m0, h.afterStart, h.afterEnd);
      moved := true;
    }

    method SlideUp() returns (moved: bool)
      requires Valid() && Aligned(removed[..], added[..], hunk)
      modifies this, added
      ensures Valid() && Aligned(removed[..], added[..], hunk)
      ensures moved <==> old(hunk).afterStart > 0 && tokens[old(hunk).afterStart - 1] == tokens[old(hunk).afterEnd - 1]
      ensures !moved ==> hunk == old(hunk) && added[..] == old(added[..])
      ensures moved ==> added[..] == Up(old(added[..]), old(hunk))
      ensures moved ==> hunk.afterStart < old(hunk).afterStart && hunk.afterEnd == old(hunk).afterEnd - 1
      ensures moved ==> Free(added[..], hunk.afterStart) == old(Free(added[..], hunk.afterStart)) - 1
      ensures Kept(tokens, added[..]) == old(Kept(tokens, added[..]))
    {
      if hunk.afterStart == 0 || tokens[hunk.afterStart - 1] != tokens[hunk.afterEnd - 1] { return false; }
      ghost var m0, h := added[..], hunk;
      UpHasRoom(removed[..], m0, h);
      added[hunk.afterStart - 1] := true;
      added[hunk.afterEnd - 1] := false;
      assert added[..] == Up(m0, h);
      var start := FindHunkStart(added, hunk.afterStart - 1);
      var beforeEnd := hunk.beforeStart - 1;
      var beforeStart := FindHunkStart(removed, beforeEnd);
      hunk := Hunk(beforeStart, beforeEnd, start, hunk.afterEnd - 1);
      ghost var m1 := added[..];
      UpAligned(removed[..], m0, h, m1, hunk);
      MovedKeeps(tokens, m1, h.afterStart - 1, h.afterEnd - 1);
      moved := true;
    }

    /** The hunk is where iteration starts, or where the previous hunk was left. */
    ghost predicate Resting()
      reads this, added, removed
    {
      hunk == Hunk(0, 0, 0, 0) || Aligned(removed[..], added[..], hunk)
    }

    /** How many tokens up to the end of the hunk are marked as added. */
    ghost function Passed(): int
      reads this, added
      requires hunk.afterStart <= added.Length
    {
      hunk.afterEnd - Free(added[..], hunk.afterStart)
    }

    /** `Hunk::next_hunk`: the next run of added tokens, together with the removed tokens next to it. */
    method NextHunk() returns (found: bool)
      requires Valid() && Resting()
      modifies this
      ensures Valid() && (found ==> Aligned(removed[..], added[..], hunk) && hunk.afterStart >= old(hunk).afterEnd)
      ensures found ==> Passed() > old(Passed()) && Unmarked(added[..], old(hunk).afterEnd, hunk.afterStart)
      ensures !found ==> forall x :: old(hunk).afterEnd <= x < added.Length ==> !added[x]
    {
      var some, off := FindNextChange(added, hunk.afterEnd);
      if !some { return false; }
      ghost var a, r := added[..], removed[..];
      var start := hunk.afterEnd + off;
      var end := FindHunkEnd(added, start);
      FreeOverUnmarked(a, hunk.afterEnd, start);
      RestingCounts(r, a, hunk);
      var bs, be := FindRemoved(hunk.afterEnd, off);
      hunk := Hunk(bs, be, start, end);
      found := true;
    }

    /** The inner loop of `next_hunk`: skip as many unmarked removed-side tokens as were skipped on the added side. */
    method FindRemoved(ghost from: nat, off: nat) returns (bs: nat, be: nat)
      requires Valid() && from == hunk.afterEnd && from + off < added.Length && hunk.beforeEnd <= removed.Length
      requires Free(removed[..], hunk.beforeEnd) + off == Free(added[..], from + off)
      requires off == 0 ==> hunk.beforeEnd == 0
      ensures IsRun(removed[..], bs, be) && Free(removed[..], bs) == Free(added[..], from + off)
    {
      ghost var r := removed[..];
      FreeMonotone(added[..], from + off, added.Length);
      bs, be := hunk.beforeStart, hunk.beforeEnd;
      var offBefore := 0;
      while true
        invariant be <= removed.Length && offBefore <= off && (offBefore == off ==> be == 0)
        invariant Free(r, be) + off == Free(added[..], from + off) + offBefore
        decreases removed.Length - be
      {
        var change, same := FindNextChange(removed, be);
        if offBefore + same > off {
          bs := be + (off - offBefore);
          FreeOverUnmarked(r, be, bs);
          be := bs;
          return;
        }
        offBefore := offBefore + same;
        bs := be + same;
        FreeOverUnmarked(r, be, bs);
        be := FindHunkEnd(removed, bs);
        FreeOverMarked(r, bs, be);
        if offBefore == off { return; }
      }
    }

    /**
     * Slide the hunk up, then down, and again for as long as it merges with others on its way down. Finally the
     * hunk has slid from `s0..earliestEnd` in the markers `m0` to its lowest place without a merge.
     */
    method Settle(ghost initial: seq<bool>)
      returns (earliestEnd: nat, isModification: bool, ghost m0: seq<bool>, ghost s0: nat)
      requires Valid() && Aligned(removed[..], added[..], hunk) && Reached(initial, added[..], hunk.afterEnd, 0)
      modifies this, added
      ensures Valid() && Settled(tokens, removed[..], added[..], hunk, m0, s0, earliestEnd, isModification)
      ensures Kept(tokens, added[..]) == old(Kept(tokens, added[..])) && Passed() >= old(Passed())
      ensures Reached(initial, added[..], hunk.afterEnd, 0)
      ensures Undisturbed(old(added[..]), old(hunk).afterStart, m0, s0)
    {
      ghost var passed := Passed();
      UndisturbedSelf(added[..], hunk.afterStart);
      var grown := true;
      earliestEnd, isModification, m0, s0 := hunk.afterEnd, false, added[..], hunk.afterStart;
      while grown
        invariant Valid() && Aligned(removed[..], added[..], hunk) && Reached(initial, added[..], hunk.afterEnd, 0)
        invariant Kept(tokens, added[..]) == old(Kept(tokens, added[..])) && Passed() >= passed
        invariant Undisturbed(old(added[..]), old(hunk).afterStart, added[..], hunk.afterStart)
        invariant !grown ==> Undisturbed(old(added[..]), old(hunk).afterStart, m0, s0)
        invariant !grown ==> Settled(tokens, removed[..], added[..], hunk, m0, s0, earliestEnd, isModification)
        decreases grown, added.Length - (hunk.afterEnd - hunk.afterStart)
      {
        ghost var m, n := added[..], hunk.afterStart;
        grown, earliestEnd, isModification, m0, s0 := UpAndDown(initial);
        UndisturbedTwice(old(added[..]), old(hunk).afterStart, m, n, added[..], hunk.afterStart);
        UndisturbedTwice(old(added[..]), old(hunk).afterStart, m, n, m0, s0);
      }
    }

    /** Slides the hunk up and down as far as possible, and says whether it has grown on its way down. */
    method UpAndDown(ghost initial: seq<bool>)
      returns (grown: bool, earliestEnd: nat, isModification: bool, ghost m0: seq<bool>, ghost s0: nat)
      requires Valid() && Aligned(removed[..], added[..], hunk) && Reached(initial, added[..], hunk.afterEnd, 0)
      modifies this, added
      ensures Valid() && Aligned(removed[..], added[..], hunk) && Reached(initial, added[..], hunk.afterEnd, 0)
      ensures Kept(tokens, added[..]) == old(Kept(tokens, added[..])) && Passed() >= old(Passed())
      ensures Undisturbed(old(added[..]), old(hunk).afterStart, added[..], hunk.afterStart)
      ensures Undisturbed(old(added[..]), old(hunk).afterStart, m0, s0)
      ensures if grown then hunk.afterEnd - hunk.afterStart > old(hunk.afterEnd - hunk.afterStart)
              else Settled(tokens, removed[..], added[..], hunk, m0, s0, earliestEnd, isModification)
    {
      SlideAllUp(initial);
      earliestEnd := hunk.afterEnd;
      m0, s0 := added[..], hunk.afterStart;
      ghost var h0 := hunk;
      var size := hunk.afterEnd - hunk.afterStart;
      isModification := SlideAllDown(initial);
      grown := size != hunk.afterEnd - hunk.afterStart;
      UndisturbedTwice(old(added[..]), old(hunk).afterStart, m0, s0, added[..], hunk.afterStart);
      if !grown { ProgressSettled(removed[..], tokens, m0, h0, added[..], hunk, isModification); }
    }

    /** Move the settled hunk up to the last place where it stands next to removed tokens. */
    method AlignWithRemoved(ghost initial: seq<bool>, ghost m0: seq<bool>, ghost s0: nat, ghost e0: nat,
                            ghost heuristic: Heuristic)
      requires Serves(heuristic) && Valid() && SlidFrom(tokens, removed[..], added[..], hunk, m0, s0, e0)
      requires MeetsWithin(removed[..], Free(m0, s0), hunk.afterStart - s0)
      requires Reached(initial, added[..], hunk.afterEnd, hunk.afterEnd)
      modifies this, added
      ensures Valid() && SlidFrom(tokens, removed[..], added[..], hunk, m0, s0, e0)
      ensures hunk.afterStart <= old(hunk).afterStart && Reached(initial, added[..], hunk.afterEnd, old(hunk).afterEnd)
      ensures Kept(tokens, added[..]) == old(Kept(tokens, added[..])) && Passed() == old(Passed())
      ensures hunk.beforeStart < hunk.beforeEnd
      ensures Rests(tokens, removed[..], added[..], hunk, s0, e0, old(hunk).afterStart, heuristic)
    {
      ghost var low := hunk.afterStart;
      while hunk.beforeStart == hunk.beforeEnd
        invariant Valid() && SlidFrom(tokens, removed[..], added[..], hunk, m0, s0, e0)
        invariant Kept(tokens, added[..]) == old(Kept(tokens, added[..])) && Passed() == old(Passed())
        invariant hunk.afterStart <= low && Reached(initial, added[..], hunk.afterEnd, old(hunk).afterEnd)
        invariant Sought(removed[..], Free(m0, s0), hunk.afterStart - s0, low - s0)
        decreases hunk.afterEnd
      {
        EmptyIsAbove(removed[..], added[..], Free(m0, s0), s0, low, hunk);
        Retrace(initial, m0, s0, e0, old(hunk).afterEnd);
      }
      RestsAligned(tokens, removed[..], added[..], hunk, m0, s0, e0, low, heuristic);
    }

    /** One slide up on the way back: the debug assertions of the source hold. */
    method Retrace(ghost initial: seq<bool>, ghost m0: seq<bool>, ghost s0: nat, ghost e0: nat, ghost low: nat)
      requires Valid() && SlidFrom(tokens, removed[..], added[..], hunk, m0, s0, e0)
      requires s0 < hunk.afterStart && Reached(initial, added[..], hunk.afterEnd, low)
      modifies this, added
      ensures Valid() && SlidFrom(tokens, removed[..], added[..], hunk, m0, s0, e0)
      ensures Reached(initial, added[..], hunk.afterEnd, low)
      ensures Kept(tokens, added[..]) == old(Kept(tokens, added[..])) && Passed() == old(Passed())
      ensures hunk.afterStart == old(hunk).afterStart - 1 && hunk.afterEnd == old(hunk).afterEnd - 1
    {
      var success := StepUp(initial, m0, s0, e0, low);
      assert success;
    }

    /** One slide up, unless the hunk is in its first place. */
    method StepUp(ghost initial: seq<bool>, ghost m0: seq<bool>, ghost s0: nat, ghost e0: nat, ghost low: nat)
      returns (success: bool)
      requires Valid() && SlidFrom(tokens, removed[..], added[..], hunk, m0, s0, e0)
      requires Reached(initial, added[..], hunk.afterEnd, low)
      modifies this, added
      ensures Valid() && SlidFrom(tokens, removed[..], added[..], hunk, m0, s0, e0)
      ensures Reached(initial, added[..], hunk.afterEnd, low)
      ensures Kept(tokens, added[..]) == old(Kept(tokens, added[..])) && Passed() == old(Passed())
      ensures success <==> old(hunk).afterStart > s0
      ensures hunk.afterStart == old(hunk).afterStart - if success then 1 else 0
    {
      ghost var m, h := added[..], hunk;
      CanStepBack(tokens, removed[..], m0, s0, e0, m, h);
      success := SlideUp();
      if success { StepBack(tokens, removed[..], initial, m0, s0, e0, m, h, added[..], hunk, low); }
    }

    /** Move the settled hunk up to where the heuristic wants it to end, but not beyond its first place. */
    method MoveTo(sliderEnd: nat, ghost initial: seq<bool>, ghost earliestEnd: nat, ghost m0: seq<bool>, ghost s0: nat,
                  ghost heuristic: Heuristic)
      requires Serves(heuristic) && Valid() && SlidFrom(tokens, removed[..], added[..], hunk, m0, s0, earliestEnd)
      requires s0 < hunk.afterStart && sliderEnd == heuristic(tokens, hunk.afterStart, hunk.afterEnd, earliestEnd)
      requires !MeetsWithin(removed[..], Free(m0, s0), hunk.afterStart - s0)
      requires Reached(initial, added[..], hunk.afterEnd, hunk.afterEnd)
      modifies this, added
      ensures Valid() && SlidFrom(tokens, removed[..], added[..], hunk, m0, s0, earliestEnd)
      ensures hunk.afterStart <= old(hunk).afterStart && Reached(initial, added[..], hunk.afterEnd, old(hunk).afterEnd)
      ensures Kept(tokens, added[..]) == old(Kept(tokens, added[..])) && Passed() == old(Passed())
      ensures hunk.afterEnd == Clamp(sliderEnd, earliestEnd, old(hunk).afterEnd)
      ensures Rests(tokens, removed[..], added[..], hunk, s0, earliestEnd, old(hunk).afterStart, heuristic)
    {
      ghost var bottom := hunk.afterStart;
      var left: nat := if sliderEnd < hunk.afterEnd then hunk.afterEnd - sliderEnd else 0;
      while left > 0
        invariant Valid() && SlidFrom(tokens, removed[..], added[..], hunk, m0, s0, earliestEnd)
        invariant Reached(initial, added[..], hunk.afterEnd, old(hunk).afterEnd)
        invariant Kept(tokens, added[..]) == old(Kept(tokens, added[..])) && Passed() == old(Passed())
        invariant hunk.afterEnd == if sliderEnd >= old(hunk).afterEnd then old(hunk).afterEnd
                                   else if sliderEnd + left < earliestEnd then earliestEnd else sliderEnd + left
        decreases left
      {
        var _ := StepUp(initial, m0, s0, earliestEnd, old(hunk).afterEnd);
        left := left - 1;
      }
      RestsMoved(tokens, removed[..], added[..], hunk, m0, s0, earliestEnd, bottom, heuristic);
    }

    /** Slide every hunk of added tokens into place, for any heuristic. */
    method Run(heuristic: Heuristic)
      requires Valid() && hunk == Hunk(0, 0, 0, 0) && Serves(heuristic)
      modifies this, added
      ensures Valid() && Kept(tokens, added[..]) == old(Kept(tokens, added[..]))
      ensures AllPlaced(tokens, removed[..], old(added[..]), added[..], added.Length, heuristic)
    {
      ghost var initial := added[..];
      while true
        invariant Valid() && Resting()
        invariant Kept(tokens, added[..]) == old(Kept(tokens, added[..]))
        invariant Reached(initial, added[..], hunk.afterEnd, 0) || (hunk.afterEnd == 0 && added[..] == initial)
        invariant AllPlaced(tokens, removed[..], initial, added[..], hunk.afterEnd, heuristic)
        decreases added.Length - Passed()
      {
        ghost var m, h := added[..], hunk;
        var found := NextHunk();
        if !found {
          AllPlacedBehind(tokens, removed[..], initial, m, h.afterEnd, m, |m|, heuristic);
          return;
        }
        AllPlacedBehind(tokens, removed[..], initial, m, h.afterEnd, m, hunk.afterStart, heuristic);
        ReachedNext(initial, m, h.afterEnd, hunk.afterStart, hunk.afterEnd);
        PlaceHunk(heuristic, initial);
      }
    }

    /** Settles a hunk and moves it to where it is to rest. */
    method PlaceHunk(heuristic: Heuristic, ghost initial: seq<bool>)
      requires Valid() && Aligned(removed[..], added[..], hunk) && Serves(heuristic)
      requires Reached(initial, added[..], hunk.afterEnd, 0)
      requires AllPlaced(tokens, removed[..], initial, added[..], hunk.afterStart, heuristic)
      modifies this, added
      ensures Valid() && Aligned(removed[..], added[..], hunk) && Reached(initial, added[..], hunk.afterEnd, 0)
      ensures Kept(tokens, added[..]) == old(Kept(tokens, added[..])) && Passed() >= old(Passed())
      ensures AllPlaced(tokens, removed[..], initial, added[..], hunk.afterEnd, heuristic)
    {
      var earliestEnd, isModification, m0, s0 := Settle(initial);
      AllPlacedStill(tokens, removed[..], initial, old(added[..]), old(hunk).afterStart, m0, s0, heuristic);
      Rest(heuristic, earliestEnd, isModification, initial, m0, s0);
    }

    /** Moves a settled hunk to where it is to rest, if it has a choice. */
    method Rest(heuristic: Heuristic, earliestEnd: nat, isModification: bool, ghost initial: seq<bool>,
                ghost m0: seq<bool>, ghost s0: nat)
      requires Serves(heuristic) && Valid() && Reached(initial, added[..], hunk.afterEnd, 0)
      requires Settled(tokens, removed[..], added[..], hunk, m0, s0, earliestEnd, isModification)
      requires AllPlaced(tokens, removed[..], initial, m0, s0, heuristic)
      modifies this, added
      ensures Valid() && Aligned(removed[..], added[..], hunk) && Reached(initial, added[..], hunk.afterEnd, 0)
      ensures Kept(tokens, added[..]) == old(Kept(tokens, added[..])) && Passed() == old(Passed())
      ensures AllPlaced(tokens, removed[..], initial, added[..], hunk.afterEnd, heuristic)
    {
      ghost var m, h := added[..], hunk;
      ReachedLow(initial, m, h.afterEnd);
      if hunk.afterEnd != earliestEnd {
        if isModification {
          AlignWithRemoved(initial, m0, s0, earliestEnd, heuristic);
        } else {
          var sliderEnd := heuristic(tokens, hunk.afterStart, hunk.afterEnd, earliestEnd);
          MoveTo(sliderEnd, initial, earliestEnd, m0, s0, heuristic);
        }
      }
      AllRest(tokens, removed[..], initial, m0, s0, earliestEnd, m, h, added[..], hunk, isModification, heuristic);
    }

    method SlideAllDown(ghost initial: seq<bool>) returns (isModification: bool)
      requires Valid() && Aligned(removed[..], added[..], hunk) && Reached(initial, added[..], hunk.afterEnd, 0)
      modifies this, added
      ensures Valid() && Aligned(removed[..], added[..], hunk) && Reached(initial, added[..], hunk.afterEnd, 0)
      ensures Kept(tokens, added[..]) == old(Kept(tokens, added[..])) && Passed() >= old(Passed())
      ensures Progress(removed[..], tokens, old(added[..]), old(hunk), added[..], hunk, isModification)
      ensures hunk.afterEnd < added.Length ==> tokens[hunk.afterStart] != tokens[hunk.afterEnd]
      ensures Undisturbed(old(added[..]), old(hunk).afterStart, added[..], hunk.afterStart)
    {
      ghost var m0, h0 := added[..], hunk;
      isModification := hunk.beforeStart != hunk.beforeEnd;
      ProgressStart(removed[..], tokens, m0, h0);
      UndisturbedSelf(m0, h0.afterStart);
      var more := true;
      while more
        invariant Valid() && Aligned(removed[..], added[..], hunk)
        invariant Kept(tokens, added[..]) == old(Kept(tokens, added[..])) && Passed() >= old(Passed())
        invariant Progress(removed[..], tokens, m0, h0, added[..], hunk, isModification)
        invariant Reached(initial, added[..], hunk.afterEnd, 0)
        invariant Undisturbed(m0, h0.afterStart, added[..], hunk.afterStart)
        invariant !more && hunk.afterEnd < added.Length ==> tokens[hunk.afterStart] != tokens[hunk.afterEnd]
        decreases more, added.Length - hunk.afterStart
      {
        ghost var m, h := added[..], hunk;
        more := SlideDown();
        if more {
          ProgressStep(removed[..], tokens, m0, h0, m, h, added[..], hunk, isModification);
          isModification := isModification || hunk.beforeStart != hunk.beforeEnd;
          StepDownOthers(initial, removed[..], m0, h0.afterStart, m, h, added[..], hunk);
        }
      }
    }

    method SlideAllUp(ghost initial: seq<bool>)
      requires Valid() && Aligned(removed[..], added[..], hunk) && Reached(initial, added[..], hunk.afterEnd, 0)
      modifies this, added
      ensures Valid() && Aligned(removed[..], added[..], hunk) && Reached(initial, added[..], hunk.afterEnd, 0)
      ensures Kept(tokens, added[..]) == old(Kept(tokens, added[..])) && Passed() == old(Passed())
      ensures hunk.afterEnd - hunk.afterStart >= old(hunk.afterEnd - hunk.afterStart)
      ensures hunk.afterStart > 0 ==> tokens[hunk.afterStart - 1] != tokens[hunk.afterEnd - 1]
      ensures Undisturbed(old(added[..]), old(hunk).afterStart, added[..], hunk.afterStart)
    {
      var more := true;
      UndisturbedSelf(added[..], hunk.afterStart);
      while more
        invariant Valid() && Aligned(removed[..], added[..], hunk)
        invariant Kept(tokens, added[..]) == old(Kept(tokens, added[..])) && Passed() == old(Passed())
        invariant hunk.afterEnd - hunk.afterStart >= old(hunk.afterEnd - hunk.afterStart)
        invariant Reached(initial, added[..], hunk.afterEnd, 0)
        invariant Undisturbed(old(added[..]), old(hunk).afterStart, added[..], hunk.afterStart)
        invariant !more && hunk.afterStart > 0 ==> tokens[hunk.afterStart - 1] != tokens[hunk.afterEnd - 1]
        decreases more, hunk.afterEnd
      {
        ghost var m, h := added[..], hunk;
        more := SlideUp();
        if more {
          ReachedUp(initial, m, h.afterStart, h.afterEnd, added[..], hunk.afterEnd, 0);
          UpUndisturbed(m, h, hunk.afterStart, hunk.afterEnd);
          UndisturbedTwice(old(added[..]), old(hunk).afterStart, m, h.afterStart, added[..], hunk.afterStart);
        }
      }
    }
  }

  /** The hunk has slid from `s0..e0` in the markers `m0` to where it is, and cannot slide further up than that. */
  ghost predicate SlidFrom(tokens: seq<Token>, removed: seq<bool>, added: seq<bool>, h: Hunk, m0: seq<bool>, s0: nat,
                           e0: nat)
  {
    && Aligned(removed, added, h) && s0 <= h.afterStart && h.afterEnd == e0 + (h.afterStart - s0)
    && Slid(tokens, m0, s0, e0, h.afterStart - s0, added)
    && Free(added, h.afterStart) == Free(m0, s0) + (h.afterStart - s0)
    && (s0 > 0 ==> tokens[s0 - 1] != tokens[e0 - 1])
  }

  /** One step on the way back. */
  lemma StepBack(tokens: seq<Token>, removed: seq<bool>, initial: seq<bool>, m0: seq<bool>, s0: nat, e0: nat,
                 m: seq<bool>, h: Hunk, m': seq<bool>, h': Hunk, low: nat)
    requires SlidFrom(tokens, removed, m, h, m0, s0, e0) && s0 < h.afterStart && Reached(initial, m, h.afterEnd, low)
    requires m' == Up(m, h) && Aligned(removed, m', h')
    requires h'.afterStart < h.afterStart && h'.afterEnd == h.afterEnd - 1
    requires Free(m', h'.afterStart) == Free(m, h.afterStart) - 1
    ensures SlidFrom(tokens, removed, m', h', m0, s0, e0) && Reached(initial, m', h'.afterEnd, low)
    ensures h'.afterStart == h.afterStart - 1
  {
    SlidFromBack(tokens, removed, m0, s0, e0, m, h, m', h');
    ReachedUp(initial, m, h.afterStart, h.afterEnd, m', h'.afterEnd, low);
  }

  lemma SlidFromBack(tokens: seq<Token>, removed: seq<bool>, m0: seq<bool>, s0: nat, e0: nat, m: seq<bool>, h: Hunk,
                     m': seq<bool>, h': Hunk)
    requires SlidFrom(tokens, removed, m, h, m0, s0, e0) && s0 < h.afterStart
    requires m' == Up(m, h) && Aligned(removed, m', h')
    requires h'.afterStart < h.afterStart && h'.afterEnd == h.afterEnd - 1
    requires Free(m', h'.afterStart) == Free(m, h.afterStart) - 1
    ensures SlidFrom(tokens, removed, m', h', m0, s0, e0) && h'.afterStart == h.afterStart - 1
  {
    SlidBack(tokens, m0, s0, e0, h.afterStart - s0, m, h, h'.afterStart);
  }

  /** A hunk can slide up exactly if it has slid down before. */
  lemma CanStepBack(tokens: seq<Token>, removed: seq<bool>, m0: seq<bool>, s0: nat, e0: nat, m: seq<bool>, h: Hunk)
    requires SlidFrom(tokens, removed, m, h, m0, s0, e0)
    ensures h.afterStart > s0 <==> h.afterStart > 0 && tokens[h.afterStart - 1] == tokens[h.afterEnd - 1]
  {
    if h.afterStart > s0 { SlidBack(tokens, m0, s0, e0, h.afterStart - s0, m, h, 0); }
  }

  lemma SlidSlides(tokens: seq<Token>, m0: seq<bool>, s: nat, e: nat, q: nat, m: seq<bool>)
    requires Slid(tokens, m0, s, e, q, m)
    ensures Slides(tokens, s, s + q, e - s)
  {}

  /** In its lowest place, without having touched another hunk on its way there. */
  ghost predicate Settled(tokens: seq<Token>, removed: seq<bool>, added: seq<bool>, h: Hunk, m0: seq<bool>, s0: nat,
                          e0: nat, isModification: bool)
  {
    && SlidFrom(tokens, removed, added, h, m0, s0, e0)
    && (h.afterEnd < |tokens| ==> tokens[h.afterStart] != tokens[h.afterEnd])
    && (isModification <==> MeetsWithin(removed, Free(m0, s0), h.afterStart - s0))
  }

  lemma ProgressSettled(removed: seq<bool>, tokens: seq<Token>, m0: seq<bool>, h0: Hunk, m: seq<bool>, h: Hunk,
                        isModification: bool)
    requires Progress(removed, tokens, m0, h0, m, h, isModification) && Aligned(removed, m, h)
    requires h.afterEnd - h.afterStart == h0.afterEnd - h0.afterStart && 0 < h0.afterEnd <= |tokens| == |m|
    requires h0.afterStart > 0 ==> tokens[h0.afterStart - 1] != tokens[h0.afterEnd - 1]
    requires h.afterEnd < |tokens| ==> tokens[h.afterStart] != tokens[h.afterEnd]
    ensures Settled(tokens, removed, m, h, m0, h0.afterStart, h0.afterEnd, isModification)
  {}

  /** Where it is to rest, of all places between `s0` and `bottom`. */
  ghost predicate Rests(tokens: seq<Token>, removed: seq<bool>, added: seq<bool>, h: Hunk, s0: nat, e0: nat,
                        bottom: nat, heuristic: Heuristic)
    requires Serves(heuristic) && s0 < e0 && h.afterStart <= |added|
  {
    Chosen(tokens, removed, Free(added, h.afterStart), h.afterStart, e0 - s0, s0, bottom, heuristic)
  }

  /** Next to removed tokens, in the last place where it is. */
  lemma RestsAligned(tokens: seq<Token>, removed: seq<bool>, added: seq<bool>, h: Hunk, m0: seq<bool>, s0: nat, e0: nat,
                     bottom: nat, heuristic: Heuristic)
    requires Serves(heuristic) && SlidFrom(tokens, removed, added, h, m0, s0, e0) && h.beforeStart < h.beforeEnd
    requires h.afterStart <= bottom && MeetsWithin(removed, Free(m0, s0), bottom - s0)
    requires Sought(removed, Free(m0, s0), h.afterStart - s0, bottom - s0)
    ensures Rests(tokens, removed, added, h, s0, e0, bottom, heuristic)
  {
    AlignedMeets(removed, added, h);
  }

  /** With no removed tokens on its way, where the heuristic wants it. */
  lemma RestsMoved(tokens: seq<Token>, removed: seq<bool>, added: seq<bool>, h: Hunk, m0: seq<bool>, s0: nat, e0: nat,
                   bottom: nat, heuristic: Heuristic)
    requires Serves(heuristic) && SlidFrom(tokens, removed, added, h, m0, s0, e0) && s0 < bottom && s0 < e0
    requires !MeetsWithin(removed, Free(m0, s0), bottom - s0)
    requires var low := e0 + (bottom - s0); h.afterEnd == Clamp(heuristic(tokens, bottom, low, e0), e0, low)
    ensures Rests(tokens, removed, added, h, s0, e0, bottom, heuristic)
  {
    assert bottom + (e0 - s0) == e0 + (bottom - s0) && s0 + (e0 - s0) == e0;
  }

  lemma SlidClear(tokens: seq<Token>, m0: seq<bool>, s: nat, e: nat, q: nat, m: seq<bool>)
    requires Slid(tokens, m0, s, e, q, m)
    ensures Unmarked(m, s, s + q) && (s > 0 ==> !m[s - 1])
  {}

  /** A settled hunk that stands where it is to rest. */
  lemma HunkPlaced(tokens: seq<Token>, removed: seq<bool>, initial: seq<bool>, m0: seq<bool>, top: nat, e0: nat, n: nat,
                   bottom: nat, m: seq<bool>, s: nat, e: nat, heuristic: Heuristic)
    requires Serves(heuristic) && n > 0 && e0 == top + n && e == s + n && top <= s <= bottom
    requires Slides(tokens, top, bottom, n) && Slid(tokens, m0, top, e0, s - top, m)
    requires top > 0 ==> tokens[top - 1] != tokens[e0 - 1]
    requires bottom + n < |tokens| ==> tokens[bottom] != tokens[bottom + n]
    requires Absorbed(initial, m, e, bottom + n)
    requires Chosen(tokens, removed, Free(m, s), s, n, top, bottom, heuristic)
    ensures Placed(tokens, removed, initial, m, s, e, heuristic)
  {
    SlidClear(tokens, m0, top, e0, s - top, m);
    PlacedFrom(tokens, removed, initial, m, top, bottom, s, n, heuristic);
  }

  /** Then it is placed like those in front of it. */
  lemma AllRest(tokens: seq<Token>, removed: seq<bool>, initial: seq<bool>, m0: seq<bool>, s0: nat, e0: nat,
                m: seq<bool>, h: Hunk, m': seq<bool>, h': Hunk, isModification: bool, heuristic: Heuristic)
    requires Serves(heuristic) && Settled(tokens, removed, m, h, m0, s0, e0, isModification)
    requires SlidFrom(tokens, removed, m', h', m0, s0, e0) && h'.afterStart <= h.afterStart
    requires Reached(initial, m', h'.afterEnd, h.afterEnd)
    requires Rests(tokens, removed, m', h', s0, e0, h.afterStart, heuristic)
    requires AllPlaced(tokens, removed, initial, m0, s0, heuristic)
    ensures AllPlaced(tokens, removed, initial, m', h'.afterEnd, heuristic) && Reached(initial, m', h'.afterEnd, 0)
  {
    RestIsPlaced(tokens, removed, initial, m0, s0, e0, m, h, m', h', isModification, heuristic);
    ReachedLess(initial, m', h'.afterEnd, h.afterEnd);
    OthersRest(tokens, removed, initial, m0, s0, e0, m', h'.afterStart, h'.afterEnd, heuristic);
  }

  lemma RestIsPlaced(tokens: seq<Token>, removed: seq<bool>, initial: seq<bool>, m0: seq<bool>, s0: nat, e0: nat,
                     m: seq<bool>, h: Hunk, m': seq<bool>, h': Hunk, isModification: bool, heuristic: Heuristic)
    requires Serves(heuristic) && Settled(tokens, removed, m, h, m0, s0, e0, isModification)
    requires SlidFrom(tokens, removed, m', h', m0, s0, e0) && h'.afterStart <= h.afterStart
    requires Reached(initial, m', h'.afterEnd, h.afterEnd)
    requires Rests(tokens, removed, m', h', s0, e0, h.afterStart, heuristic)
    ensures Placed(tokens, removed, initial, m', h'.afterStart, h'.afterEnd, heuristic)
  {
    var s, n, bottom := h'.afterStart, e0 - s0, h.afterStart;
    SettledSlides(tokens, removed, m, h, m0, s0, e0, isModification);
    ReachedAbsorbs(initial, m', h'.afterEnd, h.afterEnd);
    HunkPlaced(tokens, removed, initial, m0, s0, e0, n, bottom, m', s, h'.afterEnd, heuristic);
  }

  lemma SettledSlides(tokens: seq<Token>, removed: seq<bool>, m: seq<bool>, h: Hunk, m0: seq<bool>, s0: nat, e0: nat,
                      isModification: bool)
    requires Settled(tokens, removed, m, h, m0, s0, e0, isModification)
    ensures s0 < e0 && Slides(tokens, s0, h.afterStart, e0 - s0) && h.afterEnd == h.afterStart + (e0 - s0)
    ensures s0 > 0 ==> tokens[s0 - 1] != tokens[e0 - 1]
    ensures h.afterEnd < |tokens| ==> tokens[h.afterStart] != tokens[h.afterEnd]
  {
    SlidSlides(tokens, m0, s0, e0, h.afterStart - s0, m);
  }

  lemma OthersRest(tokens: seq<Token>, removed: seq<bool>, initial: seq<bool>, m0: seq<bool>, top: nat, e0: nat,
                   m: seq<bool>, s: nat, e: nat, heuristic: Heuristic)
    requires Serves(heuristic) && top <= s && Slid(tokens, m0, top, e0, s - top, m)
    requires AllPlaced(tokens, removed, initial, m0, top, heuristic)
    requires IsRun(m, s, e) && Placed(tokens, removed, initial, m, s, e, heuristic)
    ensures AllPlaced(tokens, removed, initial, m, e, heuristic)
  {
    SlidUndisturbed(tokens, m0, top, e0, s - top, m);
    AllPlacedStill(tokens, removed, initial, m0, top, m, s, heuristic);
    AllPlacedWith(tokens, removed, initial, m, s, e, heuristic);
  }

  lemma PlacedFrom(tokens: seq<Token>, removed: seq<bool>, initial: seq<bool>, m: seq<bool>, top: nat, bottom: nat,
                   s: nat, n: nat, heuristic: Heuristic)
    requires Serves(heuristic) && n > 0 && top <= s <= bottom && Slides(tokens, top, bottom, n) && |m| == |tokens|
    requires top > 0 ==> tokens[top - 1] != tokens[top - 1 + n]
    requires bottom + n < |tokens| ==> tokens[bottom] != tokens[bottom + n]
    requires Unmarked(m, top, s) && (top > 0 ==> !m[top - 1]) && Absorbed(initial, m, s + n, bottom + n)
    requires Chosen(tokens, removed, Free(m, s), s, n, top, bottom, heuristic)
    ensures Placed(tokens, removed, initial, m, s, s + n, heuristic)
  {
    TopIs(tokens, top, s, n);
    BottomIs(tokens, s, bottom, n);
  }

  /** One step down merges with those behind it or leaves them alone. */
  lemma StepDownOthers(initial: seq<bool>, removed: seq<bool>, m1: seq<bool>, n1: nat, m: seq<bool>, h: Hunk,
                       m': seq<bool>, h': Hunk)
    requires Aligned(removed, m, h) && h.afterEnd < |m| && m' == Moved(m, h.afterStart, h.afterEnd)
    requires Aligned(removed, m', h') && h'.afterStart == h.afterStart + 1 && h'.afterEnd > h.afterEnd
    requires Reached(initial, m, h.afterEnd, 0) && Undisturbed(m1, n1, m, h.afterStart)
    ensures Reached(initial, m', h'.afterEnd, 0) && Undisturbed(m1, n1, m', h'.afterStart)
  {
    DownOthers(initial, m, h.afterStart, h.afterEnd, m', h'.afterEnd);
    UndisturbedTwice(m1, n1, m, h.afterStart, m', h'.afterStart);
  }

  /** The state of sliding down from `m0` and `h0`, now at `m` and `h`. */
  ghost predicate Progress(removed: seq<bool>, tokens: seq<Token>, m0: seq<bool>, h0: Hunk, m: seq<bool>, h: Hunk,
                           isModification: bool) {
    && h0.afterStart <= |m0| && h.afterStart <= |m|
    && h0.afterStart <= h.afterStart && h0.afterEnd - h0.afterStart <= h.afterEnd - h.afterStart
    && Free(m, h.afterStart) == Free(m0, h0.afterStart) + (h.afterStart - h0.afterStart)
    && (h.afterEnd - h.afterStart == h0.afterEnd - h0.afterStart ==>
          Slid(tokens, m0, h0.afterStart, h0.afterEnd, h.afterStart - h0.afterStart, m))
    && (isModification <==> MeetsWithin(removed, Free(m0, h0.afterStart), h.afterStart - h0.afterStart))
  }

  lemma ProgressStart(removed: seq<bool>, tokens: seq<Token>, m0: seq<bool>, h0: Hunk)
    requires Aligned(removed, m0, h0) && |tokens| == |m0|
    ensures Progress(removed, tokens, m0, h0, m0, h0, h0.beforeStart != h0.beforeEnd)
  {
    AlignedMeets(removed, m0, h0);
  }

  /** The removed tokens next to a hunk are all that it meets. */
  lemma AlignedMeets(removed: seq<bool>, added: seq<bool>, h: Hunk)
    requires Aligned(removed, added, h)
    ensures Meets(removed, Free(added, h.afterStart)) <==> h.beforeStart < h.beforeEnd
  {
    if Meets(removed, Free(added, h.afterStart)) {
      var bs: nat, be: nat :| bs < be && IsRun(removed, bs, be) && Free(removed, bs) == Free(added, h.afterStart);
      RunUnique(removed, bs, be, h.beforeStart, h.beforeEnd);
    }
  }

  lemma ProgressStep(removed: seq<bool>, tokens: seq<Token>, m0: seq<bool>, h0: Hunk, m: seq<bool>, h: Hunk,
                     m': seq<bool>, h': Hunk, isModification: bool)
    requires Progress(removed, tokens, m0, h0, m, h, isModification)
    requires Aligned(removed, m, h) && Aligned(removed, m', h') && h.afterEnd < |m| == |tokens|
    requires tokens[h.afterStart] == tokens[h.afterEnd] && m' == Moved(m, h.afterStart, h.afterEnd)
    requires h'.afterStart == h.afterStart + 1 && h'.afterEnd > h.afterEnd
    requires Free(m', h'.afterStart) == Free(m, h.afterStart) + 1
    ensures Progress(removed, tokens, m0, h0, m', h', isModification || h'.beforeStart != h'.beforeEnd)
  {
    if h'.afterEnd - h'.afterStart == h0.afterEnd - h0.afterStart {
      SlidStep(tokens, m0, h0.afterStart, h0.afterEnd, h.afterStart - h0.afterStart, m);
    }
    AlignedMeets(removed, m', h');
    MeetsOneMore(removed, Free(m0, h0.afterStart), h.afterStart - h0.afterStart);
  }

  lemma MeetsOneMore(removed: seq<bool>, c: int, q: int)
    requires q >= 0
    ensures MeetsWithin(removed, c, q + 1) <==> MeetsWithin(removed, c, q) || Meets(removed, c + q + 1)
  {}

  lemma SlidStep(tokens: seq<Token>, m0: seq<bool>, s: nat, e: nat, q: nat, m: seq<bool>)
    requires Slid(tokens, m0, s, e, q, m) && e + q < |m| && !m[e + q] && tokens[s + q] == tokens[e + q]
    ensures Slid(tokens, m0, s, e, q + 1, Moved(m, s + q, e + q))
  {
    assert Repeats(tokens, s + q, e - s);
  }

  /** Sliding back up retraces the way down: it succeeds, it merges with nothing. */
  lemma SlidBack(tokens: seq<Token>, m0: seq<bool>, s: nat, e: nat, q: nat, m: seq<bool>, h: Hunk, start: nat)
    requires Slid(tokens, m0, s, e, q, m) && q > 0 && h.afterStart == s + q && h.afterEnd == e + q
    ensures tokens[h.afterStart - 1] == tokens[h.afterEnd - 1]
    ensures Slid(tokens, m0, s, e, q - 1, Up(m, h))
    ensures start <= s + q - 1 && IsRun(Up(m, h), start, e + q - 1) ==> start == s + q - 1
  {
    assert Repeats(tokens, s + q - 1, e - s);
    assert Up(m, h)[s + q - 1];
    if s + q >= 2 { assert !Up(m, h)[s + q - 2]; }
  }

  /**
   * Of the places from `c` on, some up to the `q`-th meet removed tokens, and those behind it up to the last do not.
   */
  ghost predicate Sought(removed: seq<bool>, c: int, q: int, last: int) {
    MeetsWithin(removed, c, q) && !MeetsWithin(removed, c + q + 1, last - q - 1)
  }

  /** Where the hunk has no removed tokens next to it, it has not yet come up to the place where it meets some. */
  lemma EmptyIsAbove(removed: seq<bool>, added: seq<bool>, c: int, s0: nat, low: nat, h: Hunk)
    requires Aligned(removed, added, h) && h.beforeStart == h.beforeEnd && s0 <= h.afterStart <= low
    requires Sought(removed, c, h.afterStart - s0, low - s0) && Free(added, h.afterStart) == c + (h.afterStart - s0)
    ensures s0 < h.afterStart && Sought(removed, c, h.afterStart - 1 - s0, low - s0)
  {
    AlignedMeets(removed, added, h);
    SoughtAbove(removed, c, h.afterStart - s0, low - s0);
  }

  lemma SoughtAbove(removed: seq<bool>, c: int, q: int, last: int)
    requires Sought(removed, c, q, last) && !Meets(removed, c + q) && 0 <= q <= last
    ensures 0 < q && Sought(removed, c, q - 1, last)
  {
    var k :| c <= k <= c + q && Meets(removed, k);
  }

  lemma ReachedLow(initial: seq<bool>, m: seq<bool>, end: nat)
    requires Reached(initial, m, end, 0)
    ensures Reached(initial, m, end, end)
  {}

  lemma ReachedLess(initial: seq<bool>, m: seq<bool>, end: nat, low: nat)
    requires Reached(initial, m, end, low)
    ensures Reached(initial, m, end, 0)
  {}

  lemma UndisturbedSelf(m: seq<bool>, n: nat)
    ensures Undisturbed(m, n, m, n)
  {}

  /** Sliding up merges with the hunk in front of it or leaves it alone. */
  lemma UpUndisturbed(m: seq<bool>, h: Hunk, start: nat, end: nat)
    requires 0 < h.afterStart < h.afterEnd <= |m| && start < h.afterStart && IsRun(Up(m, h), start, end)
    ensures Undisturbed(m, h.afterStart, Up(m, h), start)
  {
    UndisturbedFrom(m, h.afterStart, Up(m, h), start, start);
  }

  /** What is still to come stays where it is while a hunk slides up ... */
  lemma ReachedUp(initial: seq<bool>, m: seq<bool>, s: nat, e: nat, m': seq<bool>, e': nat, low: nat)
    requires 0 < s < e <= |m| && (forall x :: s <= x < e ==> m[x]) && !m[s - 1] && Reached(initial, m, e, low)
    requires m' == m[s - 1 := true][e - 1 := false] && e' == e - 1
    ensures Reached(initial, m', e', low)
  {
    var f: nat :| low <= f && Frontier(initial, m, e, f) && (f < |m| ==> !m[f]);
    FrontierUp(initial, m, s, e, m', e', f);
  }

  lemma FrontierUp(initial: seq<bool>, m: seq<bool>, s: nat, e: nat, m': seq<bool>, e': nat, f: nat)
    requires 0 < s < e <= |m| && (forall x :: s <= x < e ==> m[x]) && !m[s - 1] && Frontier(initial, m, e, f)
    requires m' == m[s - 1 := true][e - 1 := false] && e' == e - 1
    ensures Frontier(initial, m', e', f) && (f < |m| ==> m'[f] == m[f])
  {
    UpFree(m, s, e);
    MovedFree(m', s - 1, e - 1, f);
  }

  /** ... and is merged with it as it slides down. */
  lemma DownOthers(initial: seq<bool>, m: seq<bool>, s: nat, e: nat, m': seq<bool>, e': nat)
    requires s < e < |m| && IsRun(m, s, e) && m' == Moved(m, s, e) && IsRun(m', s + 1, e') && e < e'
    requires Reached(initial, m, e, 0)
    ensures Reached(initial, m', e', 0) && Undisturbed(m, s, m', s + 1)
  {
    UndisturbedFrom(m, s, m', s + 1, s);
    var f: nat :| 0 <= f && Frontier(initial, m, e, f) && (f < |m| ==> !m[f]);
    if e < f {
      MovedFree(m, s, e, f);
      assert e + 1 < |m| ==> !m'[e + 1];
      assert Frontier(initial, m', e', f);
    } else {
      MovedFree(m, s, e, e');
      FreeBeyond(initial, m, f, e');
      assert Frontier(initial, m', e', e');
    }
  }

  lemma SlidUndisturbed(tokens: seq<Token>, m0: seq<bool>, s: nat, e: nat, q: nat, m: seq<bool>)
    requires Slid(tokens, m0, s, e, q, m)
    ensures Undisturbed(m0, s, m, s + q)
  {
    UndisturbedFrom(m0, s, m, s + q, s);
  }

  /** Where there are no markers, none are to be placed. */
  lemma AllPlacedBehind(tokens: seq<Token>, removed: seq<bool>, initial: seq<bool>, m: seq<bool>, n: nat,
                        m': seq<bool>, n': nat, heuristic: Heuristic)
    requires Serves(heuristic) && m' == m && AllPlaced(tokens, removed, initial, m, n, heuristic) && Unmarked(m, n, n')
    ensures AllPlaced(tokens, removed, initial, m, n', heuristic)
  {
    forall a: nat, b: nat | RunWithin(m, n', a, b)
      ensures RunWithin(m, n, a, b)
    {
      assert m[b - 1];
    }
  }

  lemma RestingCounts(removed: seq<bool>, added: seq<bool>, h: Hunk)
    requires h == Hunk(0, 0, 0, 0) || Aligned(removed, added, h)
    ensures Free(removed, h.beforeEnd) == Free(added, h.afterEnd) == Free(added, h.afterStart)
  {
    if h != Hunk(0, 0, 0, 0) {
      FreeBehindRun(removed, h.beforeStart, h.beforeEnd);
      FreeBehindRun(added, h.afterStart, h.afterEnd);
    }
  }

  /** The markers after the run of `h` moved up by one token. */
  ghost function Up(marks: seq<bool>, h: Hunk): seq<bool>
    requires 0 < h.afterStart < h.afterEnd <= |marks|
  {
    marks[h.afterStart - 1 := true][h.afterEnd - 1 := false]
  }

  /** An unmarked token behind the added run means one behind the removed run, too. */
  lemma DownHasRoom(removed: seq<bool>, m0: seq<bool>, h: Hunk)
    requires Aligned(removed, m0, h) && h.afterEnd < |m0|
    ensures h.beforeEnd < |removed|
  {
    FreeBehindRun(m0, h.afterStart, h.afterEnd);
    FreeBehindRun(removed, h.beforeStart, h.beforeEnd);
  }

  /** Moving a run down leaves one more unmarked token in front of it, and none less in total. */
  lemma DownFree(m0: seq<bool>, s: nat, e: nat)
    requires s < e < |m0| && (forall x :: s <= x < e ==> m0[x]) && !m0[e]
    ensures Free(Moved(m0, s, e), s + 1) == Free(m0, s) + 1 && Free(Moved(m0, s, e), |m0|) == Free(m0, |m0|)
  {
    MovedFree(m0, s, e, s + 1);
    MovedFree(m0, s, e, |m0|);
    FreeOverMarked(m0, s, s + 1);
  }

  lemma DownAligned(removed: seq<bool>, m0: seq<bool>, h: Hunk, m1: seq<bool>, h': Hunk)
    requires Aligned(removed, m0, h) && h.afterEnd < |m0| && m1 == Moved(m0, h.afterStart, h.afterEnd)
    requires h'.afterStart == h.afterStart + 1 && h.afterEnd < h'.afterEnd <= |m1|
    requires forall x :: h.afterEnd <= x < h'.afterEnd ==> m1[x]
    requires h'.afterEnd == |m1| || !m1[h'.afterEnd]
    requires h'.beforeStart == h.beforeEnd + 1 && IsRun(removed, h'.beforeStart, h'.beforeEnd)
    ensures Aligned(removed, m1, h') && Free(m1, h'.afterStart) == Free(m0, h.afterStart) + 1
  {
    FreeBehindRun(removed, h.beforeStart, h.beforeEnd);
    DownFree(m0, h.afterStart, h.afterEnd);
    assert IsRun(m1, h'.afterStart, h'.afterEnd);
  }

  /** An unmarked token in front of the added run means one in front of the removed run, too. */
  lemma UpHasRoom(removed: seq<bool>, m0: seq<bool>, h: Hunk)
    requires Aligned(removed, m0, h) && h.afterStart > 0
    ensures h.beforeStart > 0
  {
    FreeBehindRun(m0, h.afterStart, h.afterEnd);
    FreeBehindRun(removed, h.beforeStart, h.beforeEnd);
  }

  lemma UpAligned(removed: seq<bool>, m0: seq<bool>, h: Hunk, m1: seq<bool>, h': Hunk)
    requires Aligned(removed, m0, h) && h.afterStart > 0 && h.beforeStart > 0 && m1 == Up(m0, h)
    requires h'.afterEnd == h.afterEnd - 1 && h'.afterStart <= h.afterStart - 1
    requires forall x :: h'.afterStart <= x < h.afterStart - 1 ==> m1[x]
    requires h'.afterStart == 0 || !m1[h'.afterStart - 1]
    requires h'.beforeEnd == h.beforeStart - 1 && IsRun(removed, h'.beforeStart, h'.beforeEnd)
    ensures Aligned(removed, m1, h') && Free(m1, h'.afterStart) == Free(m0, h.afterStart) - 1
    ensures Moved(m1, h.afterStart - 1, h.afterEnd - 1) == m0
  {
    UpFree(m0, h.afterStart, h.afterEnd);
    FreeOverMarked(m1, h'.afterStart, h.afterStart - 1);
    FreeOverMarked(removed, h'.beforeStart, h'.beforeEnd);
    assert IsRun(m1, h'.afterStart, h'.afterEnd);
  }

  /** Moving a run up is the inverse of moving it down. */
  lemma UpFree(m0: seq<bool>, s: nat, e: nat)
    requires 0 < s < e <= |m0| && (forall x :: s <= x < e ==> m0[x]) && !m0[s - 1]
    ensures var m1 := m0[s - 1 := true][e - 1 := false];
            && Moved(m1, s - 1, e - 1) == m0
            && Free(m1, s - 1) == Free(m0, s) - 1 && Free(m1, |m1|) == Free(m0, |m0|)
  {
    var m1 := m0[s - 1 := true][e - 1 := false];
    assert Moved(m1, s - 1, e - 1) == m0;
    MovedFree(m1, s - 1, e - 1, s - 1);
    MovedFree(m1, s - 1, e - 1, |m1|);
  }

  /** `Diff::postprocess_with`: removals first, then additions. */
  method PostprocessWith(before: seq<Token>, after: seq<Token>, removed: array<bool>, added: array<bool>,
                         heuristic: Heuristic)
    requires Serves(heuristic) && removed != added && ValidDiff(before, after, removed[..], added[..])
    modifies removed, added
    ensures ValidDiff(before, after, removed[..], added[..])
    ensures Kept(before, removed[..]) == old(Kept(before, removed[..]))
    ensures Kept(after, added[..]) == old(Kept(after, added[..]))
    ensures Free(removed[..], removed.Length) == old(Free(removed[..], removed.Length))
    ensures Free(added[..], added.Length) == old(Free(added[..], added.Length))
    ensures AllPlaced(before, old(added[..]), old(removed[..]), removed[..], |before|, heuristic)
    ensures AllPlaced(after, removed[..], old(added[..]), added[..], |after|, heuristic)
  {
    KeptLength(before, removed[..], |before|);
    KeptLength(after, added[..], |after|);
    var first := new Postprocessor(before, removed, added);
    first.Run(heuristic);
    KeptLength(before, removed[..], |before|);
    var second := new Postprocessor(after, added, removed);
    second.Run(heuristic);
    KeptLength(after, added[..], |after|);
  }

  /** The best place from `candidate` to `end`, where `best` is the best one before. */
  function BestFrom(candidate: nat, end: nat, best: nat, improves: (nat, nat) -> bool): (r: nat)
    ensures r == best || candidate <= r <= end
    decreases end - candidate
  {
    if candidate > end then best
    else BestFrom(candidate + 1, end, if improves(candidate, best) then candidate else best, improves)
  }

  function TopEnd(start: nat, end: nat, earliestEnd: nat): (top: nat)
    requires Slidable(start, end, earliestEnd)
    ensures earliestEnd <= top <= end && end - start <= top
  {
    var top := if earliestEnd < start - 1 then start - 1 else earliestEnd;
    if end > top + 100 then end - 100 else top
  }

  function BestEnd(start: nat, end: nat, earliestEnd: nat, improves: (nat, nat) -> bool): (best: nat)
    requires Slidable(start, end, earliestEnd)
    ensures earliestEnd <= best <= end && end - start <= best
  {
    var top := TopEnd(start, end, earliestEnd);
    BestFrom(top + 1, end, top, improves)
  }

  /** `IndentHeuristic::best_slider_end`, for any way of scoring two candidate places against each other. */
  method BestSliderEnd(start: nat, end: nat, earliestEnd: nat, improves: (nat, nat) -> bool) returns (best: nat)
    requires Slidable(start, end, earliestEnd)
    ensures earliestEnd <= best <= end && end - start <= best && best == BestEnd(start, end, earliestEnd, improves)
  {
    var top := earliestEnd;
    if top < start - 1 { top := start - 1; }
    if end > top + 100 { top := end - 100; }
    best := top;
    var candidate := top + 1;
    while candidate <= end
      invariant top < candidate <= end + 1 && top <= best <= end
      invariant BestFrom(candidate, end, best, improves) == BestEnd(start, end, earliestEnd, improves)
    {
      if improves(candidate, best) { best := candidate; }
      candidate := candidate + 1;
    }
  }

  /** It answers whenever a hunk is to be placed. */
  lemma IndentServes(improves: (seq<Token>, nat, nat) -> bool)
    ensures Serves((tokens: seq<Token>, start: nat, end: nat, earliestEnd: nat)
                     requires Slidable(start, end, earliestEnd) =>
                       BestEnd(start, end, earliestEnd,
                               (candidate: nat, best: nat) => improves(tokens, candidate, best)))
  {
  }
}
