/**
 * `gix-fs/src/stack.rs`: a stack of directories that moves from path to path and tells a delegate which
 * directories it enters and leaves. Every callback of the delegate may fail.
 */
module PathStack {
  import opened Sequences

  type Name = string

  /** A component of the requested path, or one that is relative, absolute or not representable. */
  datatype Component = Normal(name: Name) | Invalid

  /** The first `n` non-empty prefixes of a path: the directories a stack at that path has open. */
  function Prefixes(path: seq<Name>, n: nat): (r: seq<seq<Name>>)
    requires n <= |path|
    ensures |r| == n && forall k :: 0 <= k < n ==> r[k] == path[..k + 1]
  {
    seq(n, k requires 0 <= k < n => path[..k + 1])
  }

  lemma PrefixesAgree(p: seq<Name>, q: seq<Name>, n: nat)
    requires n <= |p| && n <= |q| && p[..n] == q[..n]
    ensures Prefixes(p, n) == Prefixes(q, n)
  {
    forall k | 0 <= k < n
      ensures Prefixes(p, n)[k] == Prefixes(q, n)[k]
    {
      assert p[..k + 1] == p[..n][..k + 1] && q[..k + 1] == q[..n][..k + 1];
    }
  }

  // -------------------------------------------------------------------------------------------------
  // Callbacks, and which of them a path asks for.
  // -------------------------------------------------------------------------------------------------

  datatype Callback = PushDirectory(path: seq<Name>) | Push(isLast: bool, path: seq<Name>) | PopDirectory

  /** Whether a callback that is made as number `at` fails. Leaving a directory never does. */
  predicate Fails(call: Callback, fails: nat -> bool, at: nat) {
    !call.PopDirectory? && fails(at)
  }

  predicate Passes(script: seq<Callback>, fails: nat -> bool, at: nat) {
    forall k :: 0 <= k < |script| ==> !Fails(script[k], fails, at + k)
  }

  /** A script was followed to its end, or up to the first callback that fails. */
  ghost predicate Follows(script: seq<Callback>, fails: nat -> bool, before: seq<Callback>, after: seq<Callback>,
                          ok: bool)
  {
    if ok then after == before + script && Passes(script, fails, |before|)
    else exists n: nat :: Stops(script, fails, |before|, n) && after == before + script[..n + 1]
  }

  predicate Stops(script: seq<Callback>, fails: nat -> bool, at: nat, n: nat) {
    n < |script| && Fails(script[n], fails, at + n) && Passes(script[..n], fails, at)
  }

  lemma FollowsOne(call: Callback, fails: nat -> bool, before: seq<Callback>, ok: bool)
    requires ok == !Fails(call, fails, |before|)
    ensures Follows([call], fails, before, before + [call], ok)
  {
    if !ok {
      assert Stops([call], fails, |before|, 0);
      assert [call][..1] == [call];
    }
  }

  lemma FollowsJoin(s: seq<Callback>, t: seq<Callback>, fails: nat -> bool, before: seq<Callback>,
                    between: seq<Callback>, after: seq<Callback>, ok: bool)
    requires Follows(s, fails, before, between, true) && Follows(t, fails, between, after, ok)
    ensures Follows(s + t, fails, before, after, ok)
  {
    if ok {
      assert before + (s + t) == (before + s) + t;
    } else {
      var n: nat :| Stops(t, fails, |between|, n) && after == between + t[..n + 1];
      assert (s + t)[|s| + n] == t[n];
      assert (s + t)[..|s| + n] == s + t[..n];
      assert Stops(s + t, fails, |before|, |s| + n);
      assert before + (s + t)[..|s| + n + 1] == (before + s) + t[..n + 1];
    }
  }

  lemma FollowsStopped(s: seq<Callback>, t: seq<Callback>, fails: nat -> bool, before: seq<Callback>,
                       after: seq<Callback>)
    requires Follows(s, fails, before, after, false)
    ensures Follows(s + t, fails, before, after, false)
  {
    var n: nat :| Stops(s, fails, |before|, n) && after == before + s[..n + 1];
    assert (s + t)[n] == s[n];
    assert (s + t)[..n] == s[..n] && (s + t)[..n + 1] == s[..n + 1];
    assert Stops(s + t, fails, |before|, n);
  }

  /** Script and delegate decide what is called, and how it ends. */
  lemma FollowsOnce(script: seq<Callback>, fails: nat -> bool, before: seq<Callback>, a: seq<Callback>, ok: bool,
                    b: seq<Callback>, ok': bool)
    requires Follows(script, fails, before, a, ok) && Follows(script, fails, before, b, ok')
    ensures ok == ok' && a == b
  {
    if !ok {
      var n: nat :| Stops(script, fails, |before|, n) && a == before + script[..n + 1];
      StopsOnce(script, fails, |before|, n, before, b, ok');
    }
  }

  lemma StopsOnce(script: seq<Callback>, fails: nat -> bool, at: nat, n: nat, before: seq<Callback>, b: seq<Callback>,
                  ok: bool)
    requires at == |before| && Stops(script, fails, at, n) && Follows(script, fails, before, b, ok)
    ensures !ok && b == before + script[..n + 1]
  {
    if !ok {
      var m: nat :| Stops(script, fails, at, m) && b == before + script[..m + 1];
    }
  }

  /** A script was followed up to `rest`. */
  ghost predicate Underway(script: seq<Callback>, fails: nat -> bool, before: seq<Callback>, after: seq<Callback>,
                           rest: seq<Callback>)
  {
    exists done :: Follows(done, fails, before, after, true) && script == done + rest
  }

  lemma UnderwayStart(script: seq<Callback>, fails: nat -> bool, before: seq<Callback>)
    ensures Underway(script, fails, before, before, script)
  {
    assert Follows([], fails, before, before, true) && script == [] + script;
  }

  lemma UnderwayNext(script: seq<Callback>, fails: nat -> bool, before: seq<Callback>, between: seq<Callback>,
                     after: seq<Callback>, step: seq<Callback>, rest: seq<Callback>, ok: bool)
    requires Underway(script, fails, before, between, step + rest) && Follows(step, fails, between, after, ok)
    ensures if ok then Underway(script, fails, before, after, rest) else Follows(script, fails, before, after, false)
  {
    var done :| Follows(done, fails, before, between, true) && script == done + (step + rest);
    FollowsJoin(done, step, fails, before, between, after, ok);
    Regroup(done, step, rest);
    if !ok { FollowsStopped(done + step, rest, fails, before, after); }
  }

  lemma UnderwayDone(script: seq<Callback>, fails: nat -> bool, before: seq<Callback>, after: seq<Callback>)
    requires Underway(script, fails, before, after, [])
    ensures Follows(script, fails, before, after, true)
  {
    var done :| Follows(done, fails, before, after, true) && script == done + [];
    assert script == done;
  }

  /** A script for a path that cannot be read to its end fails there at the latest. */
  ghost predicate Outcome(script: seq<Callback>, fails: nat -> bool, before: seq<Callback>, after: seq<Callback>,
                          ok: bool, readable: bool)
  {
    Follows(script, fails, before, after, ok)
    || (!readable && !ok && Follows(script, fails, before, after, true))
  }

  lemma OutcomeJoin(s: seq<Callback>, t: seq<Callback>, fails: nat -> bool, before: seq<Callback>,
                    between: seq<Callback>, after: seq<Callback>, ok: bool, readable: bool)
    requires Follows(s, fails, before, between, true) && Outcome(t, fails, between, after, ok, readable)
    ensures Outcome(s + t, fails, before, after, ok, readable)
  {
    if Follows(t, fails, between, after, ok) {
      FollowsJoin(s, t, fails, before, between, after, ok);
    } else {
      FollowsJoin(s, t, fails, before, between, after, true);
    }
  }

  function Pops(n: nat): (r: seq<Callback>)
    ensures |r| == n && forall k :: 0 <= k < n ==> r[k] == PopDirectory
  {
    seq(n, k requires 0 <= k < n => PopDirectory)
  }

  /** Entering all prefixes of `path` that are longer than `from`; a path with `total` components has no more. */
  function Entering(path: seq<Name>, from: nat, total: nat): seq<Callback>
    decreases |path| - from
  {
    if from >= |path| then []
    else EnterOne(path[..from + 1], from + 1 == total) + Entering(path, from + 1, total)
  }

  function EnterOne(path: seq<Name>, isLast: bool): seq<Callback> {
    [Push(isLast, path)] + if isLast then [] else [PushDirectory(path)]
  }

  /** The number of leading components two paths have in common. */
  function Common(p: seq<Name>, q: seq<Name>): (n: nat)
    ensures Agree(p, q, n) && (n == |p| || n == |q| || p[n] != q[n])
    decreases |p|
  {
    if p == [] || q == [] || p[0] != q[0] then 0
    else
      var n := Common(p[1..], q[1..]);
      assert forall k :: 0 < k < n + 1 ==> p[k] == p[1..][k - 1] && q[k] == q[1..][k - 1];
      n + 1
  }

  predicate Agree(p: seq<Name>, q: seq<Name>, n: nat) {
    n <= |p| && n <= |q| && forall k :: 0 <= k < n ==> p[k] == q[k]
  }

  lemma CommonIs(p: seq<Name>, q: seq<Name>, n: nat)
    requires Agree(p, q, n) && (n == |p| || n == |q| || p[n] != q[n])
    ensures Common(p, q) == n
  {}

  predicate AllNormal(comps: seq<Component>) { forall k :: 0 <= k < |comps| ==> comps[k].Normal? }

  function Names(comps: seq<Component>): (r: seq<Name>)
    requires AllNormal(comps)
    ensures |r| == |comps| && forall k :: 0 <= k < |r| ==> r[k] == comps[k].name
  {
    seq(|comps|, k requires 0 <= k < |comps| => comps[k].name)
  }

  /** The components in front of the first invalid one. */
  function Readable(comps: seq<Component>): (r: seq<Name>)
    ensures Reads(comps, r)
  {
    if comps == [] || comps[0].Invalid? then [] else [comps[0].name] + Readable(comps[1..])
  }

  predicate Reads(comps: seq<Component>, names: seq<Name>) {
    && |names| <= |comps| && (forall k :: 0 <= k < |names| ==> comps[k] == Normal(names[k]))
    && (|names| < |comps| ==> comps[|names|].Invalid?)
  }

  /** Of so many directories of a path, those that stay open: the path itself is none. */
  function Staying(directories: nat, total: nat): (n: nat)
    ensures n <= directories
  {
    if 0 < total <= directories then total - 1 else directories
  }

  /** The directories that stay open: leading ones of both paths, and never the requested path itself. */
  function Shared(relative: seq<Name>, directories: nat, path: seq<Name>, total: nat): (n: nat)
    ensures n <= directories
  {
    var common := Common(relative, path);
    Staying(if directories < common then directories else common, total)
  }

  /**
   * The callbacks for a path with `total` components, of which those in `path` can be read, by a stack that has the
   * first `directories` prefixes of `relative` open: the root if nothing is open, every directory that is left, and
   * every prefix that is not open, the last one always among them.
   */
  function Script(relative: seq<Name>, directories: nat, path: seq<Name>, total: nat): seq<Callback> {
    RootCall(relative) + Changes(directories, Shared(relative, directories, path, total), path, total)
  }

  /** Leaving all but the first `n` directories and entering the others of `path`. */
  function Changes(directories: nat, n: nat, path: seq<Name>, total: nat): seq<Callback>
    requires n <= directories
  {
    Pops(directories - n) + Entering(path, n, total)
  }

  lemma NoPops(n: nat, path: seq<Name>, total: nat)
    ensures Changes(n, n, path, total) == Entering(path, n, total)
  {
    assert Pops(0) == [];
  }

  lemma MorePops(dirs: nat, dirs': nat, n: nat, path: seq<Name>, total: nat)
    requires n <= dirs' <= dirs
    ensures Changes(dirs, n, path, total) == Pops(dirs - dirs') + Changes(dirs', n, path, total)
  {
    assert Pops(dirs - n) == Pops(dirs - dirs') + Pops(dirs' - n);
    Regroup(Pops(dirs - dirs'), Pops(dirs' - n), Entering(path, n, total));
  }

  function RootCall(relative: seq<Name>): seq<Callback> {
    if relative == [] then [PushDirectory([])] else []
  }

  /** An invalid component that is met while the path is compared with the current one is an error right away. */
  predicate CutShort(relative: seq<Name>, path: seq<Name>, total: nat) {
    |path| < total && |path| < |relative| && path == relative[..|path|]
  }

  /** The last callback of every readable path is the one for the path itself, whatever was open before. */
  lemma {:induction false} EndsWithPath(path: seq<Name>, from: nat)
    requires from < |path|
    ensures var s := Entering(path, from, |path|); s != [] && s[|s| - 1] == Push(true, path)
    decreases |path| - from
  {
    if from + 1 < |path| {
      EndsWithPath(path, from + 1);
    } else {
      assert path[..from + 1] == path;
      assert Entering(path, from + 1, |path|) == [];
    }
  }

  lemma LastCallback(relative: seq<Name>, directories: nat, path: seq<Name>)
    requires path != []
    ensures var s := Script(relative, directories, path, |path|); s != [] && s[|s| - 1] == Push(true, path)
  {
    EndsWithPath(path, Shared(relative, directories, path, |path|));
  }

  /** Keeps what it was told to enter and not yet to leave; `fails` decides which of its callbacks fail. */
  class Delegate {
    const fails: nat -> bool
    /** All callbacks so far. */
    var log: seq<Callback>
    /** The directories below the root that are open, the innermost last. */
    var open: seq<seq<Name>>

    constructor (fails: nat -> bool)
      ensures this.fails == fails && log == [] && open == []
    {
      this.fails, log, open := fails, [], [];
    }

    method PushDirectory(path: seq<Name>) returns (ok: bool)
      modifies this
      ensures log == old(log) + [Callback.PushDirectory(path)] && ok == !fails(|old(log)|)
      ensures open == if ok && path != [] then old(open) + [path] else old(open)
    {
      ok := !fails(|log|);
      log := log + [Callback.PushDirectory(path)];
      if ok && path != [] { open := open + [path]; }
    }

    method Push(isLast: bool, path: seq<Name>) returns (ok: bool)
      modifies this
      ensures log == old(log) + [Callback.Push(isLast, path)] && ok == !fails(|old(log)|) && open == old(open)
    {
      ok := !fails(|log|);
      log := log + [Callback.Push(isLast, path)];
    }

    method PopDirectory()
      requires open != []
      modifies this
      ensures log == old(log) + [Callback.PopDirectory] && open == old(open[..|open| - 1])
    {
      log := log + [Callback.PopDirectory];
      open := open[..|open| - 1];
    }
  }

  class Stack {
    const root: seq<Name>
    var current: seq<Name>
    var relative: seq<Name>
    var validComponents: nat
    var currentIsDirectory: bool

    constructor (root: seq<Name>)
      ensures this.root == root && relative == [] && Valid() && currentIsDirectory
    {
      this.root, current, relative, validComponents, currentIsDirectory := root, root, [], 0, true;
    }

    ghost predicate Valid()
      reads this
    {
      && current == root + relative && validComponents == |relative|
      && (validComponents == 0 ==> currentIsDirectory)
    }

    /** How many components of the current path are counted as directories. */
    ghost function Directories(): nat
      requires Valid()
      reads this
    {
      if currentIsDirectory then |relative| else |relative| - 1
    }

    /** The delegate has exactly the directories open that the stack counts. */
    ghost predicate Balanced(d: Delegate)
      requires Valid()
      reads this, d
    {
      d.open == Prefixes(relative, Directories())
    }

    method PopTo(matching: nat, d: Delegate)
      requires Valid() && Balanced(d) && matching <= |relative|
      modifies this, d
      ensures Valid() && Balanced(d) && relative == old(relative[..matching])
      ensures currentIsDirectory == (old(currentIsDirectory) || matching < old(|relative|))
      ensures Directories() <= old(Directories()) && d.log == old(d.log) + Pops(old(Directories()) - Directories())
    {
      var n := validComponents;
      assert relative == old(relative)[..n];
      assert d.log == old(d.log) + Pops(0);
      while n > matching
        invariant Valid() && Balanced(d) && matching <= n == |relative| <= old(|relative|)
        invariant relative == old(relative)[..n]
        invariant currentIsDirectory == (old(currentIsDirectory) || n < old(|relative|))
        invariant Directories() <= old(Directories()) && d.log == old(d.log) + Pops(old(Directories()) - Directories())
      {
        ghost var before, pops := relative, Pops(old(Directories()) - Directories());
        current, relative := current[..|current| - 1], relative[..|relative| - 1];
        validComponents := validComponents - 1;
        PrefixesAgree(before, relative, n - 1);
        if currentIsDirectory {
          d.PopDirectory();
          assert Pops(|pops| + 1) == pops + [PopDirectory];
        }
        currentIsDirectory := true;
        n := n - 1;
      }
    }

    /** The number of leading components the current path shares with the requested one; none after an invalid one. */
    method CountMatching(comps: seq<Component>, ghost names: seq<Name>) returns (ok: bool, matching: nat)
      requires Valid() && Reads(comps, names)
      ensures matching == Common(relative, names) <= |comps|
      ensures ok <==> !CutShort(relative, names, |comps|)
    {
      matching := 0;
      while matching < |relative| && matching < |comps|
        invariant Agree(relative, names, matching)
      {
        if comps[matching].Invalid? {
          CommonIs(relative, names, matching);
          return false, matching;
        }
        if comps[matching].name != relative[matching] {
          CommonIs(relative, names, matching);
          return true, matching;
        }
        matching := matching + 1;
      }
      CommonIs(relative, names, matching);
      ok := true;
    }

    /** Enter one more component below the current directory, or leave everything as it was. */
    method Enter(name: Name, isLast: bool, d: Delegate) returns (ok: bool)
      requires Valid() && Balanced(d) && currentIsDirectory
      modifies this, d
      ensures Valid() && Balanced(d)
      ensures Follows(EnterOne(old(relative) + [name], isLast), d.fails, old(d.log), d.log, ok)
      ensures ok ==> relative == old(relative) + [name] && currentIsDirectory == !isLast
      ensures !ok ==> relative == old(relative) && currentIsDirectory
    {
      ghost var before := relative;
      currentIsDirectory := !isLast;
      current, relative := current + [name], relative + [name];
      validComponents := validComponents + 1;
      PrefixesAgree(before, relative, |before|);
      ok := Announce(isLast, d);
      if !ok {
        current, relative := current[..|current| - 1], relative[..|relative| - 1];
        validComponents := validComponents - 1;
        currentIsDirectory := true;
        assert relative == before;
      }
    }

    /** Tell the delegate about the current path, and that it is a directory if it is not the last one. */
    method Announce(isLast: bool, d: Delegate) returns (ok: bool)
      requires Valid() && relative != [] && d.open == Prefixes(relative, |relative| - 1)
      modifies d
      ensures Follows(EnterOne(relative, isLast), d.fails, old(d.log), d.log, ok)
      ensures d.open == Prefixes(relative, if ok && !isLast then |relative| else |relative| - 1)
    {
      ok := d.Push(isLast, relative);
      FollowsOne(Push(isLast, relative), d.fails, old(d.log), ok);
      if isLast {
        assert EnterOne(relative, isLast) == [Push(isLast, relative)];
        return;
      }
      if !ok {
        FollowsStopped([Push(isLast, relative)], [PushDirectory(relative)], d.fails, old(d.log), d.log);
        return;
      }
      ghost var between := d.log;
      ok := d.PushDirectory(relative);
      FollowsOne(PushDirectory(relative), d.fails, between, ok);
      FollowsJoin([Push(isLast, relative)], [PushDirectory(relative)], d.fails, old(d.log), between, d.log, ok);
      assert relative[..|relative|] == relative;
    }

    /** The current path was a terminal entry and becomes a leading directory. */
    method Promote(d: Delegate) returns (ok: bool)
      requires Valid() && Balanced(d) && !currentIsDirectory
      modifies this, d
      ensures Valid() && Balanced(d) && relative == old(relative) && currentIsDirectory == ok
      ensures Follows(EnterOne(relative, false), d.fails, old(d.log), d.log, ok)
    {
      ok := Announce(false, d);
      currentIsDirectory := ok;
    }

    /** Enters everything behind the current directory that can be read. */
    method EnterAll(comps: seq<Component>, ghost names: seq<Name>, d: Delegate) returns (ok: bool)
      requires Valid() && Balanced(d) && currentIsDirectory
      requires Reads(comps, names) && relative <= names && (|relative| == |comps| ==> comps == [])
      modifies this, d
      ensures Valid() && Balanced(d) && currentIsDirectory == (!ok || comps == [])
      ensures relative <= names && (ok ==> AllNormal(comps) && relative == Names(comps))
      ensures Outcome(Entering(names, |old(relative)|, |comps|), d.fails, old(d.log), d.log, ok,
                      AllNormal(comps))
    {
      ghost var script := Entering(names, |relative|, |comps|);
      UnderwayStart(script, d.fails, d.log);
      var i := |relative|;
      while i < |comps| && comps[i].Normal?
        invariant Valid() && Balanced(d) && i == |relative| <= |names| && relative == names[..i]
        invariant currentIsDirectory == (i < |comps| || comps == [])
        invariant Underway(script, d.fails, old(d.log), d.log, Entering(names, i, |comps|))
      {
        ghost var before, step := d.log, EnterOne(names[..i + 1], i + 1 == |comps|);
        assert names[..i + 1] == relative + [comps[i].name];
        ok := Enter(comps[i].name, i + 1 == |comps|, d);
        UnderwayNext(script, d.fails, old(d.log), before, d.log, step, Entering(names, i + 1, |comps|), ok);
        if !ok { return; }
        i := i + 1;
      }
      UnderwayDone(script, d.fails, old(d.log), d.log);
      ok := i == |comps|;
    }

    /** From where the current path and the requested one part. */
    method Descend(comps: seq<Component>, ghost names: seq<Name>, d: Delegate) returns (ok: bool)
      requires Valid() && Balanced(d) && Reads(comps, names) && relative <= names
      modifies this, d
      ensures Valid() && Balanced(d)
      ensures ok && comps != [] ==> AllNormal(comps) && relative == Names(comps) && !currentIsDirectory
      ensures relative <= names && (!ok && !currentIsDirectory ==> !old(currentIsDirectory) || relative == names)
      ensures !ok && !currentIsDirectory ==> relative == old(relative)
      ensures var n := Staying(old(Directories()), |comps|);
              Outcome(Changes(old(Directories()), n, names, |comps|), d.fails, old(d.log), d.log, ok,
                      AllNormal(comps))
    {
      var matching := |relative|;
      if matching != 0 && matching == |comps| {
        ok := Repeat(comps, names, d);
        return;
      }
      NoPops(Directories(), names, |comps|);
      if !currentIsDirectory {
        ghost var rest := Entering(names, matching, |comps|);
        assert names[..matching] == relative;
        ok := Promote(d);
        if !ok {
          FollowsStopped(EnterOne(relative, false), rest, d.fails, old(d.log), d.log);
          return;
        }
        ghost var between := d.log;
        ok := EnterAll(comps, names, d);
        OutcomeJoin(EnterOne(names[..matching], false), rest, d.fails, old(d.log), between, d.log, ok,
                    AllNormal(comps));
      } else {
        ok := EnterAll(comps, names, d);
      }
    }

    /** The requested path is already current, and may have been a directory. */
    method Repeat(comps: seq<Component>, ghost names: seq<Name>, d: Delegate) returns (ok: bool)
      requires Valid() && Balanced(d) && Reads(comps, names) && relative == names && |relative| == |comps| > 0
      modifies this, d
      ensures Valid() && Balanced(d) && relative == old(relative) && !currentIsDirectory
      ensures AllNormal(comps) && relative == Names(comps)
      ensures var n := |comps| - 1;
              Follows(Changes(old(Directories()), n, relative, |comps|), d.fails, old(d.log), d.log, ok)
    {
      if currentIsDirectory {
        d.PopDirectory();
        currentIsDirectory := false;
      }
      ghost var between, pops := d.log, Pops(old(Directories()) - (|comps| - 1));
      assert between == old(d.log) + pops;
      ok := d.Push(true, relative);
      FollowsOne(Push(true, relative), d.fails, between, ok);
      FollowsJoin(pops, [Push(true, relative)], d.fails, old(d.log), between, d.log, ok);
      assert relative[..|relative|] == relative;
      assert Entering(relative, |comps| - 1, |comps|) == [Push(true, relative)];
    }

    /**
     * The callbacks are those the path asks for, up to the first one that fails. Whatever fails, the open directories
     * are those the stack counts; on success the stack is where it should be.
     */
    method MakeRelativePathCurrent(comps: seq<Component>, d: Delegate) returns (ok: bool)
      requires Valid() && Balanced(d)
      modifies this, d
      ensures Valid() && Balanced(d)
      ensures ok && comps != [] ==>
                && AllNormal(comps) && relative == Names(comps) && !currentIsDirectory
                && d.open == Prefixes(Names(comps), |comps| - 1)
      ensures relative == old(relative) || relative <= Readable(comps)
      ensures !ok && !currentIsDirectory ==> relative == old(relative) || relative == Readable(comps)
      ensures var names := Readable(comps);
              if (comps == [] && old(relative) != []) || CutShort(old(relative), names, |comps|) then
                !ok && d.log == old(d.log) && relative == old(relative)
              else
                Outcome(Script(old(relative), old(Directories()), names, |comps|), d.fails, old(d.log), d.log, ok,
                        AllNormal(comps))
    {
      if validComponents != 0 && comps == [] { return false; }
      ghost var names, dirs := Readable(comps), Directories();
      ghost var rest := Changes(dirs, Shared(relative, dirs, names, |comps|), names, |comps|);
      ok := EnterRoot(d);
      if !ok {
        FollowsStopped(RootCall(old(relative)), rest, d.fails, old(d.log), d.log);
        return;
      }
      ghost var between := d.log;
      var matching;
      ok, matching := CountMatching(comps, names);
      if !ok { return; }
      ok := Move(comps, names, matching, d);
      OutcomeJoin(RootCall(old(relative)), rest, d.fails, old(d.log), between, d.log, ok, AllNormal(comps));
    }

    method EnterRoot(d: Delegate) returns (ok: bool)
      requires Valid()
      modifies d
      ensures Follows(RootCall(relative), d.fails, old(d.log), d.log, ok) && d.open == old(d.open)
    {
      if validComponents == 0 {
        ok := d.PushDirectory(relative);
        FollowsOne(PushDirectory([]), d.fails, old(d.log), ok);
      } else {
        ok := true;
      }
    }

    /** Leaves what the paths do not share, and enters what is missing. */
    method Move(comps: seq<Component>, ghost names: seq<Name>, matching: nat, d: Delegate) returns (ok: bool)
      requires Valid() && Balanced(d) && Reads(comps, names) && matching == Common(relative, names)
      modifies this, d
      ensures Valid() && Balanced(d)
      ensures ok && comps != [] ==> AllNormal(comps) && relative == Names(comps) && !currentIsDirectory
      ensures relative <= names && (!ok && !currentIsDirectory ==> relative == old(relative) || relative == names)
      ensures var n := Shared(old(relative), old(Directories()), names, |comps|);
              Outcome(Changes(old(Directories()), n, names, |comps|), d.fails, old(d.log), d.log, ok,
                      AllNormal(comps))
    {
      ghost var dirs := Directories();
      PopTo(matching, d);
      ghost var between, dirs' := d.log, Directories();
      ghost var n := Staying(dirs', |comps|);
      ok := Descend(comps, names, d);
      OutcomeJoin(Pops(dirs - dirs'), Changes(dirs', n, names, |comps|), d.fails, old(d.log), between, d.log,
                  ok, AllNormal(comps));
      MorePops(dirs, dirs', n, names, |comps|);
    }
  }
}
