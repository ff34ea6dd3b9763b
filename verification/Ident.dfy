/** `gix-filter/src/ident.rs`: replacing `$Id$` by `$Id: <hex>$` on checkout and undoing that on checkin. */
module Ident {
  import opened Sequences
  import opened Wrappers

  const PLAIN: string := "$Id$"

  /** `$Id` and the given character stand at `k`. */
  predicate At(s: string, k: nat, c: char) {
    k + 4 <= |s| && s[k] == '$' && s[k + 1] == 'I' && s[k + 2] == 'd' && s[k + 3] == c
  }

  predicate Stops(c: char) {
    c == '$' || c == '\n'
  }

  /** The first dollar or newline at or after `k`, or the length of the text. */
  function Stop(s: string, k: nat): (e: nat)
    requires k <= |s|
    ensures k <= e <= |s| && (e < |s| ==> Stops(s[e]))
    decreases |s| - k
  {
    if k == |s| || Stops(s[k]) then k else Stop(s, k + 1)
  }

  predicate Running(s: string, k: nat, n: nat)
    requires n <= |s|
  {
    forall x :: k <= x < n ==> !Stops(s[x])
  }

  lemma {:induction false} StopIsFirst(s: string, k: nat)
    requires k <= |s|
    ensures Running(s, k, Stop(s, k))
    decreases |s| - k
  {
    if k < |s| && !Stops(s[k]) { StopIsFirst(s, k + 1); }
  }

  lemma {:induction false} StopIs(s: string, k: nat, e: nat)
    requires k <= e <= |s| && Running(s, k, e) && (e < |s| ==> Stops(s[e]))
    ensures Stop(s, k) == e
    decreases e - k
  {
    if k < e { StopIs(s, k + 1, e); }
  }

  // -------------------------------------------------------------------------------------------------
  // The filters as scans over the text from an offset on.
  // -------------------------------------------------------------------------------------------------

  /** An expanded id starts at `k`: an opening that meets a dollar before the line ends. */
  predicate Range(s: string, k: nat) {
    At(s, k, ':') && Stop(s, k + 4) < |s| && s[Stop(s, k + 4)] == '$'
  }

  /** There is nothing to undo. */
  predicate Untouched(s: string, k: nat, n: nat) {
    forall x :: k <= x < n ==> !Range(s, x)
  }

  /** Every range shrinks to the plain form. */
  function Undone(s: string, k: nat, plain: string): string
    requires k <= |s|
    decreases |s| - k
  {
    if k == |s| then []
    else if Range(s, k) then plain + Undone(s, Stop(s, k + 4) + 1, plain)
    else [s[k]] + Undone(s, k + 1, plain)
  }

  /** What the hexadecimal form of an id looks like to the filters. */
  predicate Hex(id: string) {
    forall k :: 0 <= k < |id| ==> !Stops(id[k])
  }

  function Expanded(id: string): string {
    "$Id: " + id + "$"
  }

  predicate IsPlain(plain: string) {
    |plain| == 4 && At(plain, 0, '$')
  }

  /** A range from beginning to end. */
  predicate IsRange(full: string) {
    At(full, 0, ':') && |full| > 4 && Stop(full, 4) == |full| - 1 && full[|full| - 1] == '$'
  }

  lemma ExpandedIsRange(id: string)
    requires Hex(id)
    ensures IsRange(Expanded(id))
  {
    var a := Expanded(id);
    assert forall x :: 5 <= x < 5 + |id| ==> a[x] == id[x - 5];
    StopIs(a, 4, 5 + |id|);
  }

  /** Every `$Id$` grows to its expanded form. */
  function Applied(s: string, k: nat, full: string): string
    requires k <= |s|
    decreases |s| - k
  {
    if k == |s| then []
    else if At(s, k, '$') then full + Applied(s, k + 4, full)
    else [s[k]] + Applied(s, k + 1, full)
  }

  /** There is nothing to undo other than ranges that start with the closing dollar of a `$Id$`. */
  predicate Stable(s: string, k: nat)
    requires k <= |s|
    decreases |s| - k
  {
    if k == |s| then true
    else if At(s, k, '$') then Stable(s, k + 4)
    else !Range(s, k) && Stable(s, k + 1)
  }

  lemma {:induction false} UntouchedIsStable(s: string, k: nat)
    requires k <= |s| && Untouched(s, k, |s|)
    ensures Stable(s, k)
    decreases |s| - k
  {
    if k == |s| {
    } else if At(s, k, '$') {
      UntouchedIsStable(s, k + 4);
    } else {
      UntouchedIsStable(s, k + 1);
    }
  }

  // -------------------------------------------------------------------------------------------------
  // The round trip.
  // -------------------------------------------------------------------------------------------------

  /** `t` is what `s` holds from `d` on. */
  predicate Tail(s: string, d: nat, t: string) {
    |s| == d + |t| && forall x :: 0 <= x < |t| ==> t[x] == s[d + x]
  }

  lemma {:induction false} StopShift(s: string, d: nat, t: string, k: nat)
    requires Tail(s, d, t) && k <= |t|
    ensures Stop(s, d + k) == d + Stop(t, k)
    decreases |t| - k
  {
    if k < |t| && !Stops(t[k]) { StopShift(s, d, t, k + 1); }
  }

  lemma RangeShift(s: string, d: nat, t: string, k: nat)
    requires Tail(s, d, t) && k < |t|
    ensures Range(s, d + k) == Range(t, k)
    ensures Range(t, k) ==> Stop(s, d + k + 4) == d + Stop(t, k + 4)
  {
    if At(t, k, ':') { StopShift(s, d, t, k + 4); }
  }

  function NextUndone(s: string, k: nat): nat
    requires k < |s|
  {
    if Range(s, k) then Stop(s, k + 4) + 1 else k + 1
  }

  lemma UndoneSame(s: string, j: nat, t: string, k: nat, plain: string)
    requires j < |s| && k < |t| && s[j] == t[k] && Range(s, j) == Range(t, k)
    requires Undone(s, NextUndone(s, j), plain) == Undone(t, NextUndone(t, k), plain)
    ensures Undone(s, j, plain) == Undone(t, k, plain)
  {
  }

  /** Undoing from an offset on does not depend on what comes before. */
  lemma {:induction false} UndoneShift(s: string, d: nat, t: string, k: nat, plain: string)
    requires Tail(s, d, t) && k <= |t|
    ensures Undone(s, d + k, plain) == Undone(t, k, plain)
    decreases |t| - k
  {
    if k < |t| {
      RangeShift(s, d, t, k);
      UndoneShift(s, d, t, NextUndone(t, k), plain);
      UndoneSame(s, d + k, t, k, plain);
    }
  }

  /** Text without a dollar passes through. */
  lemma {:induction false} AppliedKeeps(s: string, k: nat, n: nat, full: string)
    requires IsRange(full) && k <= n <= |s| && forall x :: k <= x < n ==> s[x] != '$'
    ensures |Applied(s, k, full)| == n - k + |Applied(s, n, full)|
    ensures forall x :: 0 <= x < n - k ==> Applied(s, k, full)[x] == s[k + x]
    ensures n < |s| ==> Applied(s, k, full)[n - k] == s[n]
    decreases n - k
  {
    if k < n { AppliedKeeps(s, k + 1, n, full); }
  }

  lemma AppliedHead(s: string, k: nat, full: string)
    requires IsRange(full) && k <= |s|
    ensures k == |s| <==> Applied(s, k, full) == []
    ensures k < |s| ==> Applied(s, k, full)[0] == s[k]
  {
  }

  /** Applying makes an opening only out of an opening or of a `$Id$`. */
  lemma AppliedOpens(s: string, k: nat, full: string)
    requires IsRange(full) && k < |s| && !At(s, k, ':') && !At(s, k, '$')
    ensures !At(Applied(s, k, full), 0, ':')
  {
    AppliedNext(s, k, full);
    if k + 1 < |s| && s[k + 1] == 'I' {
      AppliedNext(s, k + 1, full);
      if k + 2 < |s| && s[k + 2] == 'd' {
        AppliedNext(s, k + 2, full);
      }
    }
  }

  /** Other than at `$Id$`, one character is kept and the next one follows it. */
  lemma AppliedNext(s: string, k: nat, full: string)
    requires IsRange(full) && k < |s| && !At(s, k, '$')
    ensures var a, b := Applied(s, k, full), Applied(s, k + 1, full);
      |a| == 1 + |b| && a[0] == s[k] && forall x :: 1 <= x < |a| ==> a[x] == b[x - 1]
    ensures k + 1 < |s| ==> Applied(s, k + 1, full) != [] && Applied(s, k + 1, full)[0] == s[k + 1]
    ensures k + 1 == |s| ==> Applied(s, k + 1, full) == []
  {
    AppliedHead(s, k + 1, full);
  }

  /** Other than at `$Id$`, applying neither makes nor breaks a range. */
  lemma AppliedRange(s: string, k: nat, full: string)
    requires IsRange(full) && k < |s| && !At(s, k, '$')
    ensures Range(Applied(s, k, full), 0) == Range(s, k)
  {
    if At(s, k, ':') {
      StopIsFirst(s, k + 4);
      AppliedKeepsOpening(s, k, Stop(s, k + 4), full);
      StopIs(Applied(s, k, full), 4, Stop(s, k + 4) - k);
    } else {
      AppliedOpens(s, k, full);
    }
  }

  lemma AppliedKeepsOpening(s: string, k: nat, e: nat, full: string)
    requires IsRange(full) && At(s, k, ':') && k + 4 <= e <= |s| && Running(s, k + 4, e)
    ensures |Applied(s, k, full)| >= e - k && (e == |s| <==> |Applied(s, k, full)| == e - k)
    ensures forall x :: 0 <= x < e - k ==> Applied(s, k, full)[x] == s[k + x]
    ensures e < |s| ==> Applied(s, k, full)[e - k] == s[e]
  {
    AppliedKeeps(s, k + 1, e, full);
    AppliedHead(s, e, full);
    AppliedNext(s, k, full);
  }

  lemma UndoneExpanded(full: string, t: string, plain: string)
    requires IsRange(full)
    ensures Undone(full + t, 0, plain) == plain + Undone(t, 0, plain)
  {
    var a := full + t;
    StopIsFirst(full, 4);
    assert forall x :: 0 <= x < |full| ==> a[x] == full[x];
    StopIs(a, 4, |full| - 1);
    UndoneShift(a, |full|, t, 0, plain);
  }

  lemma SamePrefix(p: string, a: string, b: string)
    ensures p + a == p + b <==> a == b
  {
    if p + a == p + b {
      assert (p + a)[|p|..] == a && (p + b)[|p|..] == b;
    }
  }

  /** The application from `k` on can be undone. */
  ghost predicate Returns(s: string, k: nat, full: string, plain: string)
    requires k <= |s|
  {
    Undone(Applied(s, k, full), 0, plain) == s[k..]
  }

  lemma PlainReturns(s: string, k: nat, full: string, plain: string)
    requires IsRange(full) && IsPlain(plain) && At(s, k, '$')
    ensures Returns(s, k, full, plain) <==> Returns(s, k + 4, full, plain)
  {
    var t := Applied(s, k + 4, full);
    UndoneExpanded(full, t, plain);
    assert s[k..] == plain + s[k + 4..];
    SamePrefix(plain, Undone(t, 0, plain), s[k + 4..]);
  }

  lemma RangeIsLost(s: string, k: nat, full: string, plain: string)
    requires IsRange(full) && IsPlain(plain) && Range(s, k)
    ensures !Returns(s, k, full, plain)
  {
    AppliedRange(s, k, full);
    assert Undone(Applied(s, k, full), 0, plain)[3] == '$' && s[k..][3] == ':';
  }

  lemma OtherReturns(s: string, k: nat, full: string, plain: string)
    requires IsRange(full) && IsPlain(plain) && k < |s| && !At(s, k, '$') && !Range(s, k)
    ensures Returns(s, k, full, plain) <==> Returns(s, k + 1, full, plain)
  {
    var t := Applied(s, k + 1, full);
    AppliedRange(s, k, full);
    UndoneShift([s[k]] + t, 1, t, 0, plain);
    assert s[k..] == [s[k]] + s[k + 1..];
    SamePrefix([s[k]], Undone(t, 0, plain), s[k + 1..]);
  }

  /** Undoing the application gives back exactly the stable texts. */
  lemma {:induction false} RoundTrip(s: string, k: nat, full: string, plain: string)
    requires IsRange(full) && IsPlain(plain) && k <= |s|
    ensures Returns(s, k, full, plain) <==> Stable(s, k)
    decreases |s| - k
  {
    if k == |s| {
    } else if At(s, k, '$') {
      RoundTrip(s, k + 4, full, plain);
      PlainReturns(s, k, full, plain);
    } else if Range(s, k) {
      RangeIsLost(s, k, full, plain);
    } else {
      RoundTrip(s, k + 1, full, plain);
      OtherReturns(s, k, full, plain);
    }
  }

  /** The law the two filters are for: text with nothing to undo survives being applied and undone. */
  lemma UndoAfterApply(s: string, id: string)
    requires Hex(id) && Untouched(s, 0, |s|)
    ensures Undone(Applied(s, 0, Expanded(id)), 0, PLAIN) == s
  {
    ExpandedIsRange(id);
    UntouchedIsStable(s, 0);
    RoundTrip(s, 0, Expanded(id), PLAIN);
  }

  // -------------------------------------------------------------------------------------------------
  // The filters as loops.
  // -------------------------------------------------------------------------------------------------

  predicate Absent(s: string, c: char, k: nat, n: nat) {
    forall x :: k <= x < n ==> !At(s, x, c)
  }

  /** The first occurrence of `$Id` and `c` at or after `from`. */
  method Find(s: string, c: char, from: nat) returns (r: Option<nat>)
    requires from <= |s|
    ensures r.Some? ==> from <= r.value && At(s, r.value, c)
    ensures Absent(s, c, from, if r.Some? then r.value else |s|)
  {
    for k := from to |s|
      invariant Absent(s, c, from, k)
    {
      if At(s, k, c) { return Some(k); }
    }
    r := None;
  }

  /** The first range at or after `from`, with its end. */
  predicate FirstRange(s: string, from: nat, range: (nat, nat)) {
    from <= range.0 && Range(s, range.0) && range.1 == Stop(s, range.0 + 4) + 1 && Untouched(s, from, range.0)
  }

  method FindRange(s: string, from: nat) returns (range: Option<(nat, nat)>)
    requires from <= |s|
    ensures if range.Some? then FirstRange(s, from, range.value) else Untouched(s, from, |s|)
  {
    var ofs := from;
    while true
      invariant from <= ofs <= |s| && Untouched(s, from, ofs)
      decreases |s| - ofs
    {
      var start := Find(s, ':', ofs);
      if start.None? { return None; }
      var e := Stop(s, start.value + 4);
      StopIsFirst(s, start.value + 4);
      if e == |s| { return None; }
      if s[e] != '\n' { return Some((start.value, e + 1)); }
      ofs := e + 1;
    }
  }

  lemma OneMore(s: string, k: nat, n: nat, rest: string)
    requires k < n <= |s|
    ensures [s[k]] + (s[k + 1..n] + rest) == s[k..n] + rest
  {
    assert s[k..n] == [s[k]] + s[k + 1..n];
    Regroup([s[k]], s[k + 1..n], rest);
  }

  lemma {:induction false} UndoneUpTo(s: string, k: nat, n: nat, plain: string)
    requires k <= n <= |s| && Untouched(s, k, n)
    ensures Undone(s, k, plain) == s[k..n] + Undone(s, n, plain)
    decreases n - k
  {
    if k < n {
      UndoneUpTo(s, k + 1, n, plain);
      OneMore(s, k, n, Undone(s, n, plain));
    }
  }

  /** What is written so far, and what is still to be undone. */
  ghost predicate UndoneSoFar(src: string, ofs: nat, buf: string, plain: string) {
    ofs <= |src| && Undone(src, 0, plain) == buf + Undone(src, ofs, plain)
  }

  lemma UndoneRange(src: string, range: (nat, nat), plain: string)
    requires Range(src, range.0) && range.1 == Stop(src, range.0 + 4) + 1
    ensures range.0 <= range.1 <= |src| && Undone(src, range.0, plain) == plain + Undone(src, range.1, plain)
  {
  }

  lemma RegroupTwice(a: string, b: string, c: string, d: string)
    ensures a + (b + (c + d)) == a + b + c + d
  {
    Regroup(a, b, c + d);
    Regroup(a + b, c, d);
  }

  lemma UndoneStep(src: string, ofs: nat, buf: string, range: (nat, nat), plain: string)
    requires UndoneSoFar(src, ofs, buf, plain) && FirstRange(src, ofs, range)
    ensures UndoneSoFar(src, range.1, buf + src[ofs..range.0] + plain, plain)
  {
    UndoneUpTo(src, ofs, range.0, plain);
    UndoneRange(src, range, plain);
    RegroupTwice(buf, src[ofs..range.0], plain, Undone(src, range.1, plain));
  }

  lemma UndoneEnd(src: string, ofs: nat, buf: string, plain: string)
    requires UndoneSoFar(src, ofs, buf, plain) && Untouched(src, ofs, |src|)
    ensures Undone(src, 0, plain) == buf + src[ofs..]
    ensures ofs == 0 && buf == [] ==> Undone(src, 0, plain) == src
  {
    UndoneUpTo(src, ofs, |src|, plain);
  }

  /** Writes the result if there is something to undo, and leaves the buffer alone otherwise. */
  method Undo(src: string, buf0: string) returns (written: bool, buf: string)
    ensures written <==> !Untouched(src, 0, |src|)
    ensures buf == if written then Undone(src, 0, PLAIN) else buf0
    ensures !written ==> Undone(src, 0, PLAIN) == src
  {
    var range := FindRange(src, 0);
    written := range.Some?;
    if !written {
      UndoneEnd(src, 0, [], PLAIN);
      return false, buf0;
    }
    buf := UndoFrom(src, range.value);
  }

  /** The loop of the filter from the first range on. */
  method UndoFrom(src: string, first: (nat, nat)) returns (buf: string)
    requires FirstRange(src, 0, first)
    ensures buf == Undone(src, 0, PLAIN)
  {
    buf := [];
    var ofs: nat, range := 0, Some(first);
    while range.Some?
      invariant UndoneSoFar(src, ofs, buf, PLAIN)
      invariant if range.Some? then FirstRange(src, ofs, range.value) else Untouched(src, ofs, |src|)
      decreases |src| - ofs
    {
      UndoneStep(src, ofs, buf, range.value, PLAIN);
      buf := buf + src[ofs..range.value.0] + PLAIN;
      ofs := range.value.1;
      range := FindRange(src, ofs);
    }
    UndoneEnd(src, ofs, buf, PLAIN);
    buf := buf + src[ofs..];
  }

  lemma {:induction false} AppliedUpTo(s: string, k: nat, n: nat, full: string)
    requires k <= n <= |s| && Absent(s, '$', k, n)
    ensures Applied(s, k, full) == s[k..n] + Applied(s, n, full)
    decreases n - k
  {
    if k < n {
      AppliedUpTo(s, k + 1, n, full);
      OneMore(s, k, n, Applied(s, n, full));
    }
  }

  ghost predicate AppliedSoFar(src: string, full: string, ofs: nat, buf: string) {
    ofs <= |src| && Applied(src, 0, full) == buf + Applied(src, ofs, full)
  }

  lemma AppliedStep(src: string, full: string, ofs: nat, buf: string, k: nat)
    requires AppliedSoFar(src, full, ofs, buf) && ofs <= k && At(src, k, '$') && Absent(src, '$', ofs, k)
    ensures AppliedSoFar(src, full, k + 4, buf + src[ofs..k] + full)
  {
    AppliedUpTo(src, ofs, k, full);
    var head, rest := src[ofs..k], Applied(src, k + 4, full);
    Regroup(buf, head, full + rest);
    Regroup(buf + head, full, rest);
  }

  lemma AppliedEnd(src: string, full: string, ofs: nat, buf: string)
    requires AppliedSoFar(src, full, ofs, buf) && Absent(src, '$', ofs, |src|)
    ensures Applied(src, 0, full) == buf + src[ofs..]
    ensures ofs == 0 && buf == [] ==> Applied(src, 0, full) == src
  {
    AppliedUpTo(src, ofs, |src|, full);
  }

  /** The opening is copied from the text and the rest of the expanded form is appended. */
  lemma OpeningCopied(src: string, id: string, ofs: nat, buf: string, k: nat)
    requires ofs <= k && At(src, k, '$')
    ensures buf + src[ofs..k + 3] + (": " + id + "$") == buf + src[ofs..k] + Expanded(id)
  {
    assert src[ofs..k + 3] == src[ofs..k] + "$Id";
    assert Expanded(id) == "$Id" + (": " + id + "$");
    Regroup(buf, src[ofs..k], "$Id");
    Regroup(buf + src[ofs..k], "$Id", ": " + id + "$");
  }

  lemma ApplyStep(src: string, id: string, ofs: nat, buf: string, k: nat)
    requires AppliedSoFar(src, Expanded(id), ofs, buf) && ofs <= k && At(src, k, '$') && Absent(src, '$', ofs, k)
    ensures AppliedSoFar(src, Expanded(id), k + 4, buf + src[ofs..k + 3] + (": " + id + "$"))
  {
    AppliedStep(src, Expanded(id), ofs, buf, k);
    OpeningCopied(src, id, ofs, buf, k);
  }

  predicate Contains(s: string, c: char) {
    exists k :: 0 <= k < |s| && At(s, k, c)
  }

  /** Writes the result if `$Id$` occurs, and leaves the buffer alone otherwise. */
  method Apply(src: string, id: string, buf0: string) returns (written: bool, buf: string)
    ensures written <==> Contains(src, '$')
    ensures buf == if written then Applied(src, 0, Expanded(id)) else buf0
    ensures !written ==> Applied(src, 0, Expanded(id)) == src
  {
    var pos := Find(src, '$', 0);
    written := pos.Some?;
    if !written {
      AppliedEnd(src, Expanded(id), 0, []);
      return false, buf0;
    }
    buf := ApplyFrom(src, id, pos.value);
  }

  /** The loop of the filter from the first occurrence on. */
  method ApplyFrom(src: string, id: string, first: nat) returns (buf: string)
    requires At(src, first, '$') && Absent(src, '$', 0, first)
    ensures buf == Applied(src, 0, Expanded(id))
  {
    buf := [];
    var ofs: nat, pos := 0, Some(first);
    while pos.Some?
      invariant AppliedSoFar(src, Expanded(id), ofs, buf)
      invariant pos.Some? ==> ofs <= pos.value && At(src, pos.value, '$')
      invariant Absent(src, '$', ofs, if pos.Some? then pos.value else |src|)
      decreases |src| - ofs
    {
      ApplyStep(src, id, ofs, buf, pos.value);
      buf := buf + src[ofs..pos.value + 3] + (": " + id + "$");
      ofs := pos.value + 4;
      pos := Find(src, '$', ofs);
    }
    AppliedEnd(src, Expanded(id), ofs, buf);
    buf := buf + src[ofs..];
  }
}
